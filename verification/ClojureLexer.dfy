/** The Clojure lexer and string decoder, and the round trip from forms through text back to forms.

  Characters stand for bytes, as in the byte-indexed scanner.
 */
module ClojureLexer {
  import opened Text
  import opened ClojureForms

  // ----- character classes -----

  predicate IsSpace(c: char) {
    c == ' ' || 9 as char <= c <= 13 as char || c == 0x85 as char || c == 0xA0 as char
  }

  function Punctuation(c: char): Option<Lexeme> {
    match c
    case '(' => Some(Open(ListShape))
    case '[' => Some(Open(VectorShape))
    case '{' => Some(Open(MapShape))
    case ')' => Some(Close(Round))
    case ']' => Some(Close(Square))
    case '}' => Some(Close(Curly))
    case '\'' => Some(ReaderMacro)
    case '`' => Some(ReaderMacro)
    case '@' => Some(ReaderMacro)
    case '^' => Some(ReaderMacro)
    case '~' => Some(ReaderMacro)
    case _ => None
  }

  predicate IsDelimiter(c: char) {
    IsSpace(c) || c == ',' || c == ';' || c == '"' || Punctuation(c).Some? || c == '#'
  }

  // ----- string bodies -----

  function HexValue(c: char): Option<nat> {
    if '0' <= c <= '9' then Some((c - '0') as nat)
    else if 'a' <= c <= 'f' then Some((c - 'a') as nat + 10)
    else if 'A' <= c <= 'F' then Some((c - 'A') as nat + 10)
    else None
  }

  function CodePoint(digits: string): (r: Option<nat>)
    requires |digits| == 4
    ensures r.Some? ==> r.value < 0x10000
  {
    var (a, b, c, d) := (HexValue(digits[0]), HexValue(digits[1]), HexValue(digits[2]), HexValue(digits[3]));
    if a.None? || b.None? || c.None? || d.None? || a.value > 15 || b.value > 15 || c.value > 15 || d.value > 15 then None
    else Some(((a.value * 16 + b.value) * 16 + c.value) * 16 + d.value)
  }

  /** UTF-8, with surrogates written as the replacement character. */
  function Utf8(codePoint: nat): string
    requires codePoint < 0x10000
  {
    if codePoint < 0x80 then [codePoint as char]
    else if codePoint < 0x800 then [(0xC0 + codePoint / 64) as char, (0x80 + codePoint % 64) as char]
    else if 0xD800 <= codePoint < 0xE000 then [0xEF as char, 0xBF as char, 0xBD as char]
    else [(0xE0 + codePoint / 4096) as char, (0x80 + codePoint / 64 % 64) as char, (0x80 + codePoint % 64) as char]
  }

  function SimpleEscape(c: char): Option<char> {
    match c
    case 'b' => Some(8 as char)
    case 'f' => Some(12 as char)
    case 'n' => Some('\n')
    case 'r' => Some('\r')
    case 't' => Some('\t')
    case '"' => Some('"')
    case '\\' => Some('\\')
    case _ => None
  }

  function Prefixed(head: string, rest: Option<string>): Option<string> {
    if rest.None? then None else Some(head + rest.value)
  }

  function Decode(body: string): Option<string>
    decreases |body|
  {
    if body == "" then Some("")
    else if body[0] != '\\' then Prefixed([body[0]], Decode(body[1..]))
    else if |body| == 1 then None
    else if body[1] == 'u' then
      if |body| < 6 || CodePoint(body[2..6]).None? then None
      else Prefixed(Utf8(CodePoint(body[2..6]).value), Decode(body[6..]))
    else
      var c := SimpleEscape(body[1]);
      if c.None? then None else Prefixed([c.value], Decode(body[2..]))
  }

  function Unquote(value: string): Option<string> {
    if |value| < 2 || value[0] != '"' || value[|value| - 1] != '"' then None
    else Decode(value[1..|value| - 1])
  }

  lemma PrefixedStep(done: string, head: string, rest: Option<string>)
    ensures Prefixed(done, Prefixed(head, rest)) == Prefixed(done + head, rest)
  {
    if rest.Some? { Assoc(done, head, rest.value); }
  }

  method UnquoteClojureString(value: string) returns (r: Option<string>)
    ensures r == Unquote(value)
  {
    hide Utf8, CodePoint, SimpleEscape;
    if |value| < 2 || value[0] != '"' || value[|value| - 1] != '"' {
      return None;
    }
    var body := value[1..|value| - 1];
    var decoded := "";
    var index := 0;
    assert body[0..] == body && (Decode(body).Some? ==> "" + Decode(body).value == Decode(body).value);
    while index < |body|
      invariant index <= |body|
      invariant Decode(body) == Prefixed(decoded, Decode(body[index..]))
    {
      ghost var rest := body[index..];
      if body[index] != '\\' {
        assert rest[1..] == body[index + 1..];
        PrefixedStep(decoded, [body[index]], Decode(body[index + 1..]));
        decoded := decoded + [body[index]];
        index := index + 1;
        continue;
      }
      if index + 1 >= |body| {
        return None;
      }
      if body[index + 1] == 'u' {
        if index + 5 >= |body| {
          return None;
        }
        assert rest[2..6] == body[index + 2..index + 6] && rest[6..] == body[index + 6..];
        var codePoint := CodePoint(body[index + 2..index + 6]);
        if codePoint.None? {
          return None;
        }
        PrefixedStep(decoded, Utf8(codePoint.value), Decode(body[index + 6..]));
        decoded := decoded + Utf8(codePoint.value);
        index := index + 6;
      } else {
        assert rest[2..] == body[index + 2..];
        var c := SimpleEscape(body[index + 1]);
        if c.None? {
          return None;
        }
        PrefixedStep(decoded, [c.value], Decode(body[index + 2..]));
        decoded := decoded + [c.value];
        index := index + 2;
      }
    }
    assert decoded + "" == decoded;
    return Some(decoded);
  }

  // ----- the lexer on the remaining text -----

  /** Length, through the closing quote, of a string body. */
  function StringLength(s: string, escaped: bool): (r: Option<nat>)
    ensures r.Some? ==> 0 < r.value <= |s|
  {
    if s == "" then None
    else if !escaped && s[0] == '"' then Some(1)
    else
      var more := StringLength(s[1..], !escaped && s[0] == '\\');
      if more.None? then None else Some(more.value + 1)
  }

  function AtomLength(s: string): (n: nat)
    ensures n <= |s|
  {
    if s == "" || IsDelimiter(s[0]) then 0 else 1 + AtomLength(s[1..])
  }

  type Lexed = Option<seq<Lexeme>>

  function Then(first: Lexeme, rest: Lexed): Lexed {
    if rest.None? then None else Some([first] + rest.value)
  }

  function Lex(s: string): Lexed
    decreases |s|
  {
    if s == "" then Some([])
    else if IsSpace(s[0]) || s[0] == ',' then Lex(s[1..])
    else if s[0] == ';' then Lex(AfterLine(s[1..]))
    else if s[0] == '"' then
      var n := StringLength(s[1..], false);
      if n.None? then None
      else
        var value := Unquote(s[..n.value + 1]);
        if value.None? then None else Then(Word(value.value), Lex(s[n.value + 1..]))
    else if s[0] == '#' then
      if |s| > 1 && s[1] == '{' then Then(Open(SetShape), Lex(s[2..])) else Then(ReaderMacro, Lex(s[1..]))
    else if Punctuation(s[0]).Some? then Then(Punctuation(s[0]).value, Lex(s[1..]))
    else
      var n := AtomLength(s);
      Then(Word(s[..n]), Lex(s[n..]))
  }

  // ----- the lexer itself -----

  ghost predicate Ordered(tokens: seq<Token>, bound: nat) {
    && (forall i, j :: 0 <= i < j < |tokens| ==> tokens[i].pos < tokens[j].pos)
    && (forall i :: 0 <= i < |tokens| ==> tokens[i].pos < bound)
  }

  ghost function Completed(done: seq<Lexeme>, rest: Lexed): Lexed {
    if rest.None? then None else Some(done + rest.value)
  }

  lemma CompletedStep(tokens: seq<Token>, token: Token, rest: Lexed)
    ensures Completed(Lexemes(tokens), Then(token.lexeme, rest)) == Completed(Lexemes(tokens + [token]), rest)
  {
    assert Lexemes(tokens + [token]) == Lexemes(tokens) + [token.lexeme];
    if rest.Some? { Assoc(Lexemes(tokens), [token.lexeme], rest.value); }
  }

  /** Reads one string literal; the tokens gain at most one, at `start`. */
  method LexString(content: string, start: nat, tokens: seq<Token>) returns (ok: bool, out: seq<Token>, next: nat)
    requires start < |content| && content[start] == '"' && Ordered(tokens, start)
    ensures var n := StringLength(content[start + 1..], false);
            ok == (n.Some? && Unquote(content[start..start + n.value + 1]).Some?)
    ensures ok ==> start < next <= |content| && next == start + StringLength(content[start + 1..], false).value + 1
    ensures ok ==> out == tokens + [Token(Word(Unquote(content[start..next]).value), start)]
  {
    hide Unquote;
    var index := start + 1;
    var escaped := false;
    out := tokens;
    ghost var n := StringLength(content[start + 1..], false);
    while index < |content|
      invariant start < index <= |content| && out == tokens
      invariant var more := StringLength(content[index..], escaped);
                if more.None? then n.None? else n == Some(more.value + index - start - 1)
    {
      assert content[index..][1..] == content[index + 1..];
      if escaped {
        escaped := false;
      } else if content[index] == '\\' {
        escaped := true;
      } else if content[index] == '"' {
        index := index + 1;
        var value := UnquoteClojureString(content[start..index]);
        if value.None? {
          return false, tokens, index;
        }
        out := tokens + [Token(Word(value.value), start)];
        break;
      }
      index := index + 1;
    }
    if index == |content| && (|out| == 0 || out[|out| - 1].pos != start) {
      return false, out, index;
    }
    return true, out, index;
  }

  method LexClojure(content: string) returns (r: Option<seq<Token>>)
    ensures r.None? == Lex(content).None?
    ensures r.Some? ==> Lexemes(r.value) == Lex(content).value && Ordered(r.value, |content|)
  {
    hide Unquote, StringLength, Punctuation, IsDelimiter, IsSpace;
    var tokens: seq<Token> := [];
    var index := 0;
    ghost var whole := Lex(content);
    assert content[0..] == content && Lexemes(tokens) == [];
    assert whole.Some? ==> [] + whole.value == whole.value;
    while index < |content|
      invariant index <= |content| && Ordered(tokens, index)
      invariant whole == Completed(Lexemes(tokens), Lex(content[index..]))
    {
      var ok;
      ok, tokens, index := LexNext(content, index, tokens);
      if !ok {
        return None;
      }
    }
    assert Lexemes(tokens) + [] == Lexemes(tokens);
    return Some(tokens);
  }

  lemma LexSkips(s: string)
    requires s != ""
    ensures IsSpace(s[0]) || s[0] == ',' ==> Lex(s) == Lex(s[1..])
    ensures s[0] == ';' ==> Lex(s) == Lex(AfterLine(s[1..]))
  {
    hide IsSpace, AfterLine, Unquote, StringLength, AtomLength, Punctuation;
    SemicolonIsNoSpace();
  }

  lemma LexOfString(s: string)
    requires s != "" && s[0] == '"'
    ensures var n := StringLength(s[1..], false);
            Lex(s) == if n.None? || Unquote(s[..n.value + 1]).None? then None
                      else Then(Word(Unquote(s[..n.value + 1]).value), Lex(s[n.value + 1..]))
  {
    hide Unquote, StringLength, AtomLength, Punctuation;
  }

  /** One turn of the lexer's loop. */
  method LexNext(content: string, start: nat, tokens: seq<Token>) returns (ok: bool, out: seq<Token>, index: nat)
    requires start < |content| && Ordered(tokens, start)
    ensures ok ==> start < index <= |content| && Ordered(out, index)
    ensures ok ==> Completed(Lexemes(tokens), Lex(content[start..])) == Completed(Lexemes(out), Lex(content[index..]))
    ensures !ok ==> Lex(content[start..]).None?
  {
    hide Lex, Unquote, StringLength, Punctuation, IsSpace, AfterLine, Lexemes, Completed;
    ok, out, index := true, tokens, start;
    ghost var s := content[start..];
    var current := content[start];
    assert s[1..] == content[start + 1..];
    LexSkips(s);
    if IsSpace(current) || current == ',' {
      index := start + 1;
      return;
    }
    if current == ';' {
      index := SkipComment(content, start + 1);
      return;
    }
    if current == '"' {
      ok, out, index := LexString(content, start, tokens);
      LexOfString(s);
      ghost var n := StringLength(s[1..], false);
      if n.Some? {
        assert s[..n.value + 1] == content[start..start + n.value + 1];
      }
      if ok {
        assert s[n.value + 1..] == content[index..];
        CompletedStep(tokens, out[|tokens|], Lex(content[index..]));
      }
      return;
    }
    out, index := LexSymbol(content, start, tokens);
  }

  method LexSymbol(content: string, start: nat, tokens: seq<Token>) returns (out: seq<Token>, index: nat)
    requires start < |content| && Ordered(tokens, start)
    requires !IsSpace(content[start]) && content[start] != ',' && content[start] != ';' && content[start] != '"'
    ensures start < index <= |content| && Ordered(out, index)
    ensures Completed(Lexemes(tokens), Lex(content[start..])) == Completed(Lexemes(out), Lex(content[index..]))
  {
    hide Punctuation, IsSpace, AtomLength, Lexemes, Completed;
    ghost var s := content[start..];
    var current := content[start];
    assert s[1..] == content[start + 1..];
    if current == '#' {
      if start + 1 < |content| && content[start + 1] == '{' {
        out := tokens + [Token(Open(SetShape), start)];
        index := start + 2;
        assert s[2..] == content[index..];
        CompletedStep(tokens, Token(Open(SetShape), start), Lex(content[index..]));
      } else {
        out := tokens + [Token(ReaderMacro, start)];
        index := start + 1;
        CompletedStep(tokens, Token(ReaderMacro, start), Lex(content[index..]));
      }
      return;
    }
    var kind := Punctuation(current);
    if kind.Some? {
      out := tokens + [Token(kind.value, start)];
      index := start + 1;
      CompletedStep(tokens, Token(kind.value, start), Lex(content[index..]));
      return;
    }
    index := ScanAtom(content, start);
    out := tokens + [Token(Word(content[start..index]), start)];
    assert s[..index - start] == content[start..index] && s[index - start..] == content[index..];
    CompletedStep(tokens, Token(Word(content[start..index]), start), Lex(content[index..]));
  }

  method SkipComment(content: string, start: nat) returns (index: nat)
    requires start <= |content|
    ensures start <= index <= |content| && content[index..] == AfterLine(content[start..])
  {
    index := start;
    while index < |content| && content[index] != '\n'
      invariant start <= index <= |content| && AfterLine(content[start..]) == AfterLine(content[index..])
    {
      assert content[index..][1..] == content[index + 1..];
      index := index + 1;
    }
  }

  method ScanAtom(content: string, start: nat) returns (index: nat)
    requires start < |content| && !IsDelimiter(content[start])
    ensures start < index <= |content| && index - start == AtomLength(content[start..])
  {
    hide IsDelimiter;
    index := start;
    while index < |content| && !IsDelimiter(content[index])
      invariant start <= index <= |content|
      invariant AtomLength(content[start..]) == index - start + AtomLength(content[index..])
    {
      assert content[index..][1..] == content[index + 1..];
      index := index + 1;
    }
  }

  // ----- single steps -----

  lemma SemicolonIsNoSpace()
    ensures !IsSpace(';')
  {
  }

  lemma PunctuationLexes(c: char, rest: string)
    requires Punctuation(c).Some?
    ensures Lex([c] + rest) == Then(Punctuation(c).value, Lex(rest))
  {
    hide Unquote, StringLength, AfterLine, AtomLength, Then;
    var s := [c] + rest;
    assert s[0] == c && s[1..] == rest && !IsSpace(c);
  }

  lemma SetLexes(rest: string)
    ensures Lex("#{" + rest) == Then(Open(SetShape), Lex(rest))
  {
    hide Unquote, StringLength, AfterLine, AtomLength, Then;
    var s := "#{" + rest;
    assert s[0] == '#' && s[1] == '{' && s[2..] == rest;
  }
}
