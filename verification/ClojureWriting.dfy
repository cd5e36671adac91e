/** How Clojure files are written: texts of tokens and gaps, exactly the ones the lexer reads. */
module ClojureWriting {
  import opened Text
  import opened Lists
  import opened ClojureForms
  import opened ClojureLexer

  // ----- string bodies -----

  /** A character as it is, an escape by letter, or four hexadecimal digits. */
  datatype Unit = Plain(c: char) | Escape(letter: char) | Code(digits: string)

  const LOWER := "0123456789abcdef"
  const UPPER := "0123456789ABCDEF"

  /** The value of a hexadecimal digit. */
  predicate Digit(c: char, v: nat) { v < 16 && (LOWER[v] == c || UPPER[v] == c) }

  ghost predicate IsDigit(c: char) { exists v: nat :: Digit(c, v) }

  /** Four hexadecimal digits spell the number. */
  ghost predicate Spell(digits: string, n: nat) {
    |digits| == 4 &&
    exists a: nat, b: nat, c: nat, d: nat ::
      && Digit(digits[0], a) && Digit(digits[1], b) && Digit(digits[2], c) && Digit(digits[3], d)
      && n == a * 4096 + b * 256 + c * 16 + d
  }

  ghost predicate UnitOk(u: Unit) {
    match u
    case Plain(c) => c != '"' && c != '\\'
    case Escape(letter) => letter in {'b', 'f', 'n', 'r', 't', '"', '\\'}
    case Code(digits) => |digits| == 4 && IsDigit(digits[0]) && IsDigit(digits[1]) && IsDigit(digits[2]) && IsDigit(digits[3])
  }

  function UnitText(u: Unit): string {
    match u
    case Plain(c) => [c]
    case Escape(letter) => ['\\', letter]
    case Code(digits) => ['\\', 'u'] + digits
  }

  /** What a unit stands for. */
  ghost predicate UnitMeans(u: Unit, value: string) {
    match u
    case Plain(c) => value == [c]
    case Escape('b') => value == [8 as char]
    case Escape('f') => value == [12 as char]
    case Escape('n') => value == ['\n']
    case Escape('r') => value == ['\r']
    case Escape('t') => value == ['\t']
    case Escape(c) => value == [c]
    case Code(digits) =>
      exists n: nat :: Spell(digits, n) && Encodes(value, n)
  }

  /** The UTF-8 form of a code point (section 3 of RFC 3629); a surrogate is written as U+FFFD. */
  predicate Encodes(bytes: string, codePoint: nat) {
    var n := if 0xD800 <= codePoint < 0xE000 then 0xFFFD else codePoint;
    if n < 0x80 then |bytes| == 1 && bytes[0] as int == n
    else if n < 0x800 then
      && |bytes| == 2 && 0xC0 <= bytes[0] as int < 0xE0 && 0x80 <= bytes[1] as int < 0xC0
      && n == (bytes[0] as int - 0xC0) * 64 + (bytes[1] as int - 0x80)
    else
      && |bytes| == 3 && 0xE0 <= bytes[0] as int < 0xF0 && 0x80 <= bytes[1] as int < 0xC0 && 0x80 <= bytes[2] as int < 0xC0
      && n == (bytes[0] as int - 0xE0) * 4096 + (bytes[1] as int - 0x80) * 64 + (bytes[2] as int - 0x80)
  }

  lemma Utf8Encodes(n: nat)
    requires n < 0x10000
    ensures Encodes(Utf8(n), n)
  {
  }

  lemma SameDigits(x: int, y: int, z: int, u: int, v: int, w: int)
    requires 0 <= y < 64 && 0 <= z < 64 && 0 <= v < 64 && 0 <= w < 64
    requires x * 4096 + y * 64 + z == u * 4096 + v * 64 + w
    ensures x == u && y == v && z == w
  {
  }

  lemma EncodingUnique(a: string, b: string, n: nat)
    requires Encodes(a, n) && Encodes(b, n)
    ensures a == b
  {
    assert |a| == |b| && 1 <= |a| <= 3;
    if |a| == 3 {
      SameDigits(a[0] as int, a[1] as int - 0x80, a[2] as int - 0x80, b[0] as int, b[1] as int - 0x80, b[2] as int - 0x80);
    } else if |a| == 2 {
      SameDigits(0, a[0] as int - 0xC0, a[1] as int - 0x80, 0, b[0] as int - 0xC0, b[1] as int - 0x80);
    }
    hide Encodes;
    forall i | 0 <= i < |a| ensures a[i] == b[i] {
      assert a[i] as int == b[i] as int;
    }
  }

  lemma DigitIs(c: char)
    ensures IsDigit(c) <==> HexValue(c).Some?
    ensures forall v: nat :: Digit(c, v) <==> HexValue(c) == Some(v)
    ensures HexValue(c).Some? ==> HexValue(c).value < 16
  {
    forall v: nat ensures Digit(c, v) <==> HexValue(c) == Some(v) { DigitValue(c, v); }
    if HexValue(c).Some? { assert Digit(c, HexValue(c).value); }
  }

  lemma DigitValue(c: char, v: nat)
    ensures Digit(c, v) <==> HexValue(c) == Some(v)
  {
  }

  function BodyText(us: seq<Unit>): string { if us == [] then "" else UnitText(us[0]) + BodyText(us[1..]) }

  /** The values of the units, in order. */
  ghost predicate BodyMeans(us: seq<Unit>, value: string) {
    if us == [] then value == ""
    else exists first, rest :: UnitOk(us[0]) && UnitMeans(us[0], first) && BodyMeans(us[1..], rest) && value == first + rest
  }

  lemma SpellIff(digits: string, n: nat)
    requires |digits| == 4
    ensures Spell(digits, n) <==> CodePoint(digits) == Some(n)
  {
    DigitIs(digits[0]);
    DigitIs(digits[1]);
    DigitIs(digits[2]);
    DigitIs(digits[3]);
    hide HexValue, Digit, IsDigit;
    if CodePoint(digits) == Some(n) {
      var (a, b, c, d) := (HexValue(digits[0]).value, HexValue(digits[1]).value, HexValue(digits[2]).value, HexValue(digits[3]).value);
      assert Digit(digits[0], a) && Digit(digits[1], b) && Digit(digits[2], c) && Digit(digits[3], d);
      assert n == a * 4096 + b * 256 + c * 16 + d;
    }
  }

  lemma AllDigits(digits: string)
    requires |digits| == 4
    ensures CodePoint(digits).Some? <==> IsDigit(digits[0]) && IsDigit(digits[1]) && IsDigit(digits[2]) && IsDigit(digits[3])
  {
    DigitIs(digits[0]);
    DigitIs(digits[1]);
    DigitIs(digits[2]);
    DigitIs(digits[3]);
    hide HexValue, Digit, IsDigit;
  }

  lemma CodeMeans(digits: string, value: string)
    requires |digits| == 4
    ensures UnitOk(Code(digits)) && UnitMeans(Code(digits), value) <==> CodePoint(digits).Some? && value == Utf8(CodePoint(digits).value)
  {
    AllDigits(digits);
    forall n: nat ensures Spell(digits, n) <==> CodePoint(digits) == Some(n) { SpellIff(digits, n); }
    hide CodePoint, IsDigit, Utf8, Encodes, Spell;
    if CodePoint(digits).Some? {
      var n := CodePoint(digits).value;
      Utf8Encodes(n);
      if UnitMeans(Code(digits), value) { EncodingUnique(value, Utf8(n), n); }
    }
  }

  lemma EscapeMeans(letter: char, value: string)
    ensures UnitOk(Escape(letter)) && UnitMeans(Escape(letter), value) <==>
            SimpleEscape(letter).Some? && value == [SimpleEscape(letter).value]
  {
  }

  /** A unit at the front of a body is decoded by itself. */
  lemma UnitDecodes(u: Unit, first: string, rest: string)
    requires UnitOk(u) && UnitMeans(u, first)
    ensures Decode(UnitText(u) + rest) == ClojureLexer.Prefixed(first, Decode(rest))
  {
    hide Utf8, CodePoint, SimpleEscape;
    var s := UnitText(u) + rest;
    match u {
      case Plain(c) =>
        assert s[1..] == rest;
      case Escape(letter) =>
        EscapeMeans(letter, first);
        assert letter != 'u' && s[2..] == rest;
      case Code(digits) =>
        CodeMeans(digits, first);
        assert s[2..6] == digits && s[6..] == rest;
    }
  }

  lemma {:induction false} BodyDecodes(us: seq<Unit>, value: string)
    requires BodyMeans(us, value)
    ensures Decode(BodyText(us)) == Some(value)
  {
    hide Decode, UnitOk, UnitMeans, UnitText;
    if us == [] {
      NothingDecodes();
    } else {
      var first, rest :| UnitOk(us[0]) && UnitMeans(us[0], first) && BodyMeans(us[1..], rest) && value == first + rest;
      BodyDecodes(us[1..], rest);
      UnitDecodes(us[0], first, BodyText(us[1..]));
    }
  }

  lemma NothingDecodes()
    ensures Decode("") == Some("")
  {
  }

  /** A unit holds no closing quote. */
  lemma UnitOpen(u: Unit, rest: string)
    requires UnitOk(u)
    ensures StringLength(UnitText(u) + rest, false) ==
            if StringLength(rest, false).None? then None else Some(|UnitText(u)| + StringLength(rest, false).value)
  {
    hide StringLength, IsDigit;
    match u {
      case Plain(c) => PlainOpen(c, rest);
      case Escape(letter) => PairOpen(letter, rest);
      case Code(digits) => CodeOpen(digits, rest);
    }
  }

  lemma CodeOpen(digits: string, rest: string)
    requires |digits| == 4 && IsDigit(digits[0]) && IsDigit(digits[1]) && IsDigit(digits[2]) && IsDigit(digits[3])
    ensures StringLength(UnitText(Code(digits)) + rest, false) ==
            if StringLength(rest, false).None? then None else Some(6 + StringLength(rest, false).value)
  {
    hide StringLength, IsDigit;
    Assoc(['\\', 'u'], digits, rest);
    PairOpen('u', digits + rest);
    DigitsOpen(digits, rest);
  }

  lemma PairOpen(letter: char, rest: string)
    ensures StringLength(['\\', letter] + rest, false) ==
            if StringLength(rest, false).None? then None else Some(2 + StringLength(rest, false).value)
  {
    var s := ['\\', letter] + rest;
    assert s[1..] == [letter] + rest && s[1..][1..] == rest;
    assert !(!true && letter == '\\');
  }

  lemma DigitsOpen(digits: string, rest: string)
    requires |digits| == 4 && IsDigit(digits[0]) && IsDigit(digits[1]) && IsDigit(digits[2]) && IsDigit(digits[3])
    ensures StringLength(digits + rest, false) ==
            if StringLength(rest, false).None? then None else Some(4 + StringLength(rest, false).value)
  {
    hide StringLength, IsDigit;
    var (a, b, c, d) := (digits[0], digits[1], digits[2], digits[3]);
    DigitPlain(a);
    DigitPlain(b);
    DigitPlain(c);
    DigitPlain(d);
    PlainOpen(d, rest);
    PlainOpen(c, [d] + rest);
    PlainOpen(b, [c] + ([d] + rest));
    PlainOpen(a, [b] + ([c] + ([d] + rest)));
    assert digits + rest == [a] + ([b] + ([c] + ([d] + rest)));
  }

  lemma DigitPlain(c: char)
    requires IsDigit(c)
    ensures c != '"' && c != '\\'
  {
    DigitIs(c);
    hide Digit;
  }

  lemma PlainOpen(c: char, rest: string)
    requires c != '"' && c != '\\'
    ensures StringLength([c] + rest, false) ==
            if StringLength(rest, false).None? then None else Some(1 + StringLength(rest, false).value)
  {
    assert ([c] + rest)[1..] == rest;
  }

  lemma {:induction false} BodyLength(us: seq<Unit>, value: string, rest: string)
    requires BodyMeans(us, value)
    ensures StringLength(BodyText(us) + ("\"" + rest), false) == Some(|BodyText(us)| + 1)
  {
    hide UnitOk, UnitMeans, UnitText;
    if us == [] {
      assert BodyText(us) + ("\"" + rest) == "\"" + rest;
    } else {
      var first, more :| UnitOk(us[0]) && UnitMeans(us[0], first) && BodyMeans(us[1..], more) && value == first + more;
      BodyLength(us[1..], more, rest);
      Assoc(UnitText(us[0]), BodyText(us[1..]), "\"" + rest);
      UnitOpen(us[0], BodyText(us[1..]) + ("\"" + rest));
      hide StringLength;
    }
  }

  lemma {:induction false} UnitsOf(body: string) returns (us: seq<Unit>)
    requires Decode(body).Some? && StringLength(body + "\"", false) == Some(|body| + 1)
    ensures BodyText(us) == body && BodyMeans(us, Decode(body).value)
    decreases |body|
  {
    if body == "" {
      us := [];
    } else {
      hide Utf8, CodePoint, SimpleEscape, UnitOk, UnitMeans, BodyMeans;
      var u, first := FirstUnit(body);
      var rest := body[|UnitText(u)|..];
      SplitPrefix(body, UnitText(u));
      UnitDecodes(u, first, rest);
      Assoc(UnitText(u), rest, "\"");
      UnitOpen(u, rest + "\"");
      hide Decode, UnitText, StringLength;
      var more := UnitsOf(rest);
      us := [u] + more;
      assert us[1..] == more;
      BodyMore(u, first, more, Decode(rest).value);
    }
  }

  lemma BodyMore(u: Unit, first: string, more: seq<Unit>, rest: string)
    requires UnitOk(u) && UnitMeans(u, first) && BodyMeans(more, rest)
    ensures BodyMeans([u] + more, first + rest)
  {
    hide UnitOk, UnitMeans;
    assert ([u] + more)[1..] == more;
  }

  lemma FirstUnit(body: string) returns (u: Unit, first: string)
    requires body != "" && Decode(body).Some? && StringLength(body + "\"", false) == Some(|body| + 1)
    ensures UnitOk(u) && UnitMeans(u, first) && UnitText(u) <= body && UnitText(u) != ""
  {
    hide Utf8, CodePoint, SimpleEscape;
    if body[0] != '\\' {
      u, first := Plain(body[0]), [body[0]];
    } else if body[1] == 'u' {
      u, first := Code(body[2..6]), Utf8(CodePoint(body[2..6]).value);
      CodeMeans(body[2..6], first);
      assert body[..6] == ['\\', 'u'] + body[2..6];
    } else {
      u, first := Escape(body[1]), [SimpleEscape(body[1]).value];
      EscapeMeans(body[1], first);
      assert body[..2] == ['\\', body[1]];
    }
  }

  // ----- pieces of a file -----

  /** Gaps are white space, commas and comments; a comment takes its line feed with it. */
  datatype Piece = Blank(c: char) | Remark(body: string) | Sign(c: char) | SetOpen | Hash | Bare(text: string)
                 | Quoted(units: seq<Unit>, value: string)

  predicate IsBlank(c: char) {
    c == ' ' || c == ',' || 9 <= c as int <= 13 || c as int == 0x85 || c as int == 0xA0
  }

  predicate IsSign(c: char) { c in {'(', ')', '[', ']', '{', '}', '\'', '`', '@', '^', '~'} }

  /** The characters that end a bare symbol. */
  predicate Ends(c: char) { IsBlank(c) || IsSign(c) || c in {'"', ';', '#'} }

  ghost predicate PieceOk(p: Piece) {
    match p
    case Blank(c) => IsBlank(c)
    case Remark(body) => '\n' !in body
    case Sign(c) => IsSign(c)
    case Bare(text) => text != "" && forall i :: 0 <= i < |text| ==> !Ends(text[i])
    case Quoted(units, value) => BodyMeans(units, value)
    case _ => true
  }

  /** A symbol goes on until something ends it; a hash before a brace opens a set. */
  predicate Fits(p: Piece, rest: string) {
    match p
    case Hash => rest == "" || rest[0] != '{'
    case Bare(_) => rest == "" || Ends(rest[0])
    case _ => true
  }

  function PieceText(p: Piece): string {
    match p
    case Blank(c) => [c]
    case Remark(body) => ";" + (body + "\n")
    case Sign(c) => [c]
    case SetOpen => "#{"
    case Hash => "#"
    case Bare(text) => text
    case Quoted(units, _) => ['"'] + (BodyText(units) + ['"'])
  }

  /** The token a piece stands for: symbols and strings alike are words. */
  function Lexical(p: Piece): seq<Lexeme> {
    match p
    case Blank(_) => []
    case Remark(_) => []
    case Sign('(') => [Open(ListShape)]
    case Sign('[') => [Open(VectorShape)]
    case Sign('{') => [Open(MapShape)]
    case Sign(')') => [Close(Round)]
    case Sign(']') => [Close(Square)]
    case Sign('}') => [Close(Curly)]
    case Sign(_) => [ReaderMacro]
    case SetOpen => [Open(SetShape)]
    case Hash => [ReaderMacro]
    case Bare(text) => [Word(text)]
    case Quoted(_, value) => [Word(value)]
  }

  function TextOf(ps: seq<Piece>): string { if ps == [] then "" else PieceText(ps[0]) + TextOf(ps[1..]) }

  function LexemesOf(ps: seq<Piece>): seq<Lexeme> { if ps == [] then [] else Lexical(ps[0]) + LexemesOf(ps[1..]) }

  /** A comment without a line feed may end the text. */
  function LastText(last: Option<string>): string { if last.Some? then ";" + last.value else "" }

  ghost predicate PiecesOk(ps: seq<Piece>, end: string) {
    ps != [] ==> PieceOk(ps[0]) && Fits(ps[0], TextOf(ps[1..]) + end) && PiecesOk(ps[1..], end)
  }

  /** The content is written as these pieces, whose tokens are `ts`. */
  ghost predicate Writes(content: string, ps: seq<Piece>, last: Option<string>, ts: seq<Lexeme>) {
    && content == TextOf(ps) + LastText(last) && (last.Some? ==> '\n' !in last.value)
    && PiecesOk(ps, LastText(last)) && LexemesOf(ps) == ts
  }

  // ----- written pieces are read -----

  lemma EndsIff(c: char)
    ensures Ends(c) <==> IsDelimiter(c)
    ensures IsBlank(c) <==> IsSpace(c) || c == ','
    ensures IsSign(c) <==> Punctuation(c).Some?
    ensures IsSign(c) ==> Lexical(Sign(c)) == [Punctuation(c).value]
  {
  }

  lemma {:induction false} BareLength(text: string, rest: string)
    requires forall i :: 0 <= i < |text| ==> !Ends(text[i])
    requires rest == "" || Ends(rest[0])
    ensures AtomLength(text + rest) == |text|
  {
    if text == "" {
      assert text + rest == rest;
      if rest != "" { EndsIff(rest[0]); }
    } else {
      assert (text + rest)[1..] == text[1..] + rest;
      EndsIff(text[0]);
      hide Ends, IsDelimiter;
      BareLength(text[1..], rest);
    }
  }

  /** A bare symbol is one word, whole. */
  lemma BareLexes(text: string, rest: string)
    requires text != "" && forall i :: 0 <= i < |text| ==> !Ends(text[i])
    requires rest == "" || Ends(rest[0])
    ensures Lex(text + rest) == Then(Word(text), Lex(rest))
  {
    var s := text + rest;
    BareLength(text, rest);
    EndsIff(text[0]);
    hide Then, Unquote, StringLength, AfterLine, AtomLength, Ends, IsBlank, IsSign;
    assert s[0] == text[0] && s[..|text|] == text && s[|text|..] == rest;
    assert !IsDelimiter(s[0]);
  }

  lemma QuotedLexes(us: seq<Unit>, value: string, rest: string)
    requires BodyMeans(us, value)
    ensures Lex(PieceText(Quoted(us, value)) + rest) == Then(Word(value), Lex(rest))
  {
    var body := BodyText(us);
    BodyDecodes(us, value);
    BodyLength(us, value, rest);
    hide BodyText, BodyMeans, Decode, Lex, StringLength, Then;
    Assoc(['"'], body + ['"'], rest);
    Assoc(body, ['"'], rest);
    var s := ['"'] + (body + ("\"" + rest));
    assert s[1..] == body + ("\"" + rest);
    assert s[..|body| + 2] == ['"'] + (body + ['"']) && s[|body| + 2..] == rest;
    assert (['"'] + (body + ['"']))[1..|body| + 1] == body;
    LexOfString(s);
  }

  lemma {:induction false} RemarkEnds(body: string, rest: string)
    requires '\n' !in body
    ensures AfterLine(body + ("\n" + rest)) == "\n" + rest
  {
    var s := body + ("\n" + rest);
    if body == "" {
      assert s == "\n" + rest;
    } else {
      assert body == [body[0]] + body[1..] && body[0] in body && s[1..] == body[1..] + ("\n" + rest);
      RemarkEnds(body[1..], rest);
    }
  }

  lemma {:induction false} RemarkNeverEnds(body: string)
    requires '\n' !in body
    ensures AfterLine(body) == ""
  {
    if body != "" {
      assert body == [body[0]] + body[1..] && body[0] in body;
      RemarkNeverEnds(body[1..]);
    }
  }

  lemma RemarkLexes(body: string, rest: string)
    requires '\n' !in body
    ensures Lex(PieceText(Remark(body)) + rest) == Lex(rest)
  {
    hide Lex, AfterLine, IsSpace;
    var s := ";" + (body + ("\n" + rest));
    Assoc(";", body + "\n", rest);
    Assoc(body, "\n", rest);
    assert s[1..] == body + ("\n" + rest);
    LexSkips(s);
    RemarkEnds(body, rest);
    LexSkips("\n" + rest);
    assert ("\n" + rest)[1..] == rest;
    assert IsSpace('\n') by { LineFeedIsSpace(); }
  }

  lemma LineFeedIsSpace()
    ensures IsSpace('\n')
  {
  }

  lemma HashLexes(rest: string)
    requires rest == "" || rest[0] != '{'
    ensures Lex("#" + rest) == Then(ReaderMacro, Lex(rest))
  {
    hide Unquote, StringLength, AfterLine, AtomLength, Then;
    var s := "#" + rest;
    assert s[1..] == rest && !IsSpace('#');
  }

  function Preceded(p: Piece, rest: Lexed): Lexed { if Lexical(p) == [] then rest else Then(Lexical(p)[0], rest) }

  lemma PieceLexes(p: Piece, rest: string)
    requires PieceOk(p) && Fits(p, rest)
    ensures Lex(PieceText(p) + rest) == Preceded(p, Lex(rest))
  {
    hide Lex, IsSpace, IsBlank, IsSign, Ends, Punctuation, BodyMeans, BodyText;
    match p
    case Blank(c) =>
      EndsIff(c);
      LexSkips([c] + rest);
      assert ([c] + rest)[1..] == rest;
    case Remark(body) => RemarkLexes(body, rest);
    case Sign(c) =>
      EndsIff(c);
      PunctuationLexes(c, rest);
    case SetOpen => SetLexes(rest);
    case Hash => HashLexes(rest);
    case Bare(text) => BareLexes(text, rest);
    case Quoted(units, value) => QuotedLexes(units, value, rest);
  }

  lemma {:induction false} PiecesLex(ps: seq<Piece>, last: Option<string>)
    requires PiecesOk(ps, LastText(last)) && (last.Some? ==> '\n' !in last.value)
    ensures Lex(TextOf(ps) + LastText(last)) == Some(LexemesOf(ps))
  {
    hide Lex, PieceOk, Fits, PieceText, Lexical, LastText;
    if ps == [] {
      assert TextOf(ps) + LastText(last) == LastText(last);
      LastLexes(last);
    } else {
      var rest := TextOf(ps[1..]) + LastText(last);
      Assoc(PieceText(ps[0]), TextOf(ps[1..]), LastText(last));
      PiecesLex(ps[1..], last);
      PieceLexes(ps[0], rest);
      AtMostOne(ps[0]);
      var more := LexemesOf(ps[1..]);
      assert [] + more == more;
      assert Lexical(ps[0]) == [] || Lexical(ps[0]) == [Lexical(ps[0])[0]];
    }
  }

  lemma AtMostOne(p: Piece)
    ensures |Lexical(p)| <= 1
  {
  }

  lemma LastLexes(last: Option<string>)
    requires last.Some? ==> '\n' !in last.value
    ensures Lex(LastText(last)) == Some([])
  {
    hide Lex;
    LexNothing();
    if last.Some? {
      assert LastText(last)[1..] == last.value;
      LexSkips(LastText(last));
      RemarkNeverEnds(last.value);
    }
  }

  lemma LexNothing()
    ensures Lex("") == Some([])
  {
  }

  // ----- what is read was written in pieces -----

  lemma {:induction false} LineSplits(s: string) returns (body: string, rest: string)
    ensures s == body + rest && '\n' !in body && (rest != "" ==> rest[0] == '\n')
  {
    if s == "" || s[0] == '\n' {
      body, rest := "", s;
    } else {
      body, rest := LineSplits(s[1..]);
      body := [s[0]] + body;
    }
  }

  lemma {:induction false} AtomIsBare(s: string)
    ensures forall i :: 0 <= i < AtomLength(s) ==> !Ends(s[i])
    ensures AtomLength(s) < |s| ==> Ends(s[AtomLength(s)])
  {
    if s != "" {
      EndsIff(s[0]);
      hide Ends, IsDelimiter;
      if AtomLength(s) > 0 {
        AtomIsBare(s[1..]);
        forall i | 0 <= i < AtomLength(s) ensures !Ends(s[i]) {
          assert i > 0 ==> s[i] == s[1..][i - 1];
        }
      }
    }
  }

  lemma FirstString(s: string) returns (p: Piece, rest: string)
    requires s != "" && s[0] == '"' && Lex(s).Some?
    ensures s == PieceText(p) + rest && PieceOk(p) && Fits(p, rest) && |rest| < |s|
  {
    hide Lex, Decode, StringLength, BodyMeans, BodyText;
    LexOfString(s);
    var n := StringLength(s[1..], false).value;
    var body := s[1..n];
    rest := s[n + 1..];
    assert s[..n + 1][1..n] == body && s[..n + 1][n] == '"';
    assert s == ['"'] + (body + ("\"" + rest));
    BodyClosed(s[1..], n);
    assert s[1..][..n] == body + "\"";
    var us := UnitsOf(body);
    p := Quoted(us, Decode(body).value);
    Assoc(['"'], body + ['"'], rest);
    Assoc(body, ['"'], rest);
  }

  /** The length of a string body does not depend on what follows its quote. */
  lemma {:induction false} BodyClosed(s: string, n: nat)
    requires StringLength(s, false) == Some(n)
    ensures StringLength(s[..n], false) == Some(n)
  {
    BodyClosedFrom(s, false, n);
  }

  lemma {:induction false} BodyClosedFrom(s: string, escaped: bool, n: nat)
    requires StringLength(s, escaped) == Some(n)
    ensures StringLength(s[..n], escaped) == Some(n)
  {
    if escaped || s[0] != '"' {
      BodyClosedFrom(s[1..], !escaped && s[0] == '\\', n - 1);
      assert s[..n][1..] == s[1..][..n - 1];
    }
  }

  lemma FirstRemark(s: string) returns (p: Piece, rest: string)
    requires s != "" && s[0] == ';' && '\n' in s
    ensures p.Remark? && s == PieceText(p) + rest && PieceOk(p) && |rest| < |s|
  {
    assert s == ";" + s[1..];
    var body, more := LineSplits(s[1..]);
    assert body + "" == body;
    p, rest := Remark(body), more[1..];
    assert more == "\n" + rest;
    Assoc(body, "\n", rest);
    Assoc(";", body + "\n", rest);
  }

  lemma FirstHash(s: string) returns (p: Piece, rest: string)
    requires s != "" && s[0] == '#'
    ensures s == PieceText(p) + rest && PieceOk(p) && Fits(p, rest) && |rest| < |s|
  {
    if |s| > 1 && s[1] == '{' {
      p, rest := SetOpen, s[2..];
      assert s == "#{" + rest;
    } else {
      p, rest := Hash, s[1..];
      assert s == "#" + rest;
    }
  }

  lemma FirstPiece(s: string) returns (p: Piece, rest: string)
    requires s != "" && Lex(s).Some? && (s[0] == ';' ==> '\n' in s)
    ensures s == PieceText(p) + rest && PieceOk(p) && Fits(p, rest) && |rest| < |s|
  {
    EndsIff(s[0]);
    hide Lex, IsDelimiter, IsSpace, Punctuation, IsBlank, IsSign;
    assert s == [s[0]] + s[1..];
    if s[0] == ';' {
      p, rest := FirstRemark(s);
    } else if s[0] == '"' {
      p, rest := FirstString(s);
    } else if s[0] == '#' {
      p, rest := FirstHash(s);
    } else if IsBlank(s[0]) {
      p, rest := Blank(s[0]), s[1..];
    } else if IsSign(s[0]) {
      p, rest := Sign(s[0]), s[1..];
    } else {
      var n := AtomLength(s);
      AtomIsBare(s);
      p, rest := Bare(s[..n]), s[n..];
      assert s == s[..n] + s[n..];
    }
  }

  lemma {:induction false} PiecesFound(s: string) returns (ps: seq<Piece>, last: Option<string>)
    requires Lex(s).Some?
    ensures s == TextOf(ps) + LastText(last) && (last.Some? ==> '\n' !in last.value) && PiecesOk(ps, LastText(last))
    decreases |s|
  {
    hide Lex, PieceOk, Fits, PieceText, Lexical, PiecesOk;
    if s == "" {
      ps, last := [], None;
      NoPieces("");
    } else if s[0] == ';' && '\n' !in s {
      ps, last := [], Some(s[1..]);
      NoPieces(LastText(last));
      assert s == ";" + s[1..] && "" + s == s;
      assert forall c :: c in s[1..] ==> c in s;
    } else {
      var p, rest := FirstPiece(s);
      PieceLexes(p, rest);
      var more;
      more, last := PiecesFound(rest);
      ps := [p] + more;
      assert ps[1..] == more;
      Assoc(PieceText(p), TextOf(more), LastText(last));
      MorePieces(p, more, LastText(last));
    }
  }

  lemma NoPieces(end: string)
    ensures PiecesOk([], end)
  {
  }

  lemma MorePieces(p: Piece, more: seq<Piece>, end: string)
    requires PieceOk(p) && Fits(p, TextOf(more) + end) && PiecesOk(more, end)
    ensures PiecesOk([p] + more, end)
  {
    hide PieceOk, Fits;
    assert ([p] + more)[1..] == more;
  }

  /** The lexer reads exactly the tokens that the text is written with, in pieces and gaps of any kind. */
  lemma LexIff(content: string, ts: seq<Lexeme>)
    ensures Lex(content) == Some(ts) <==> exists ps, last :: Writes(content, ps, last, ts)
  {
    hide Lex, PiecesOk, TextOf, LastText, LexemesOf;
    if Lex(content).Some? {
      var ps, last := PiecesFound(content);
      PiecesLex(ps, last);
      assert Writes(content, ps, last, LexemesOf(ps));
    }
    if ps, last :| Writes(content, ps, last, ts) {
      PiecesLex(ps, last);
    }
  }

  /** A content is read as a forest if and only if it is written with the forest's tokens. */
  lemma ContentIff(content: string, forest: seq<Node>)
    ensures (Lex(content).Some? && ParseForms(Lex(content).value) == Some(forest)) <==>
            exists ps, last :: Writes(content, ps, last, FlattenAll(forest))
  {
    hide Lex, ParseForms, FlattenAll, Writes;
    LexIff(content, FlattenAll(forest));
    if Lex(content).Some? { ParsesIffFlattens(Lex(content).value, forest); }
    ParsesIffFlattens(FlattenAll(forest), forest);
  }

  /** The forms of a file's content, or None where the source reports an error. */
  method ParseContent(content: string) returns (forms: Option<seq<Node>>)
    ensures forms.Some? ==> exists ps, last :: Writes(content, ps, last, FlattenAll(forms.value))
    ensures forms.None? ==> forall forest, ps, last :: !Writes(content, ps, last, FlattenAll(forest))
  {
    hide Writes, FlattenAll, Lex, ParseForms;
    forall forest ensures (Lex(content).Some? && ParseForms(Lex(content).value) == Some(forest)) <==>
                          exists ps, last :: Writes(content, ps, last, FlattenAll(forest))
    {
      ContentIff(content, forest);
    }
    var tokens := LexClojure(content);
    if tokens.None? {
      return None;
    }
    forms := ParseClojureForms(tokens.value);
  }
}
