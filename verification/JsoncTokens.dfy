/** JSON texts with comments in their gaps and trailing commas: normalisation yields the plain tokens.
    The grammar is the one of section 2 of RFC 8259. */
module JsoncTokens {
  import opened Text
  import opened Jsonc

  // ----- tokens -----

  /** A structural character, a string with the text between its quotes, or a number or literal name. */
  datatype Token = Mark(c: char) | Quoted(body: string) | Bare(text: string)

  predicate IsMark(c: char) { c == '{' || c == '}' || c == '[' || c == ']' || c == ':' || c == ',' }

  /** The white space between tokens. */
  predicate IsGap(c: char) { c in " \t\n\r" }

  predicate IsBareChar(c: char) { 'a' <= c <= 'z' || 'A' <= c <= 'Z' || '0' <= c <= '9' || c == '+' || c == '-' || c == '.' }

  /** Escapes come in pairs and no quote stands alone. */
  predicate BodyOk(body: string)
    decreases |body|
  {
    body == "" ||
    (if body[0] == '\\' then |body| >= 2 && BodyOk(body[2..]) else body[0] != '"' && BodyOk(body[1..]))
  }

  predicate TokenOk(t: Token) {
    match t
    case Mark(c) => IsMark(c)
    case Quoted(body) => BodyOk(body)
    case Bare(text) => text != "" && forall i :: 0 <= i < |text| ==> IsBareChar(text[i])
  }

  function TokenText(t: Token): string {
    match t
    case Mark(c) => [c]
    case Quoted(body) => ['"'] + (body + ['"'])
    case Bare(text) => text
  }

  // ----- reading tokens back -----

  /** The text between here and the closing quote, and what follows it. */
  function ReadBody(s: string): Option<(string, string)>
    decreases |s|
  {
    if s == "" then None
    else if s[0] == '\\' then
      if |s| == 1 then None
      else
        var rest := ReadBody(s[2..]);
        if rest.None? then None else Some(([s[0], s[1]] + rest.value.0, rest.value.1))
    else if s[0] == '"' then Some(("", s[1..]))
    else
      var rest := ReadBody(s[1..]);
      if rest.None? then None else Some(([s[0]] + rest.value.0, rest.value.1))
  }

  function BareLength(s: string): (n: nat)
    ensures n <= |s|
  {
    if s != "" && IsBareChar(s[0]) then 1 + BareLength(s[1..]) else 0
  }

  lemma {:induction false} ReadBodyShrinks(s: string)
    ensures ReadBody(s).Some? ==> |ReadBody(s).value.1| < |s|
    decreases |s|
  {
    if s != "" && s[0] == '\\' {
      if |s| > 1 { ReadBodyShrinks(s[2..]); }
    } else if s != "" && s[0] != '"' {
      ReadBodyShrinks(s[1..]);
    }
  }

  function Cons(t: Token, rest: Option<seq<Token>>): Option<seq<Token>> {
    if rest.None? then None else Some([t] + rest.value)
  }

  /** The tokens of a JSON text: whitespace separates, a bare token is as long as it can be. */
  function Lex(s: string): Option<seq<Token>>
    decreases |s|
  {
    if s == "" then Some([])
    else if IsGap(s[0]) then Lex(s[1..])
    else if IsMark(s[0]) then Cons(Mark(s[0]), Lex(s[1..]))
    else if s[0] == '"' then
      var r := ReadBody(s[1..]);
      if r.None? then None else (ReadBodyShrinks(s[1..]); Cons(Quoted(r.value.0), Lex(r.value.1)))
    else
      var n := BareLength(s);
      if n == 0 then None else Cons(Bare(s[..n]), Lex(s[n..]))
  }

  // ----- texts with comments -----

  /** A gap is whitespace or a comment; a line comment includes the line break that ends it. */
  datatype Piece = Solid(token: Token) | Blank(c: char) | LineComment(body: string, end: char) | BlockComment(body: string)

  predicate NeverCloses(body: string) { body != "" ==> !("*/" <= body) && NeverCloses(body[1..]) }

  predicate PieceOk(p: Piece) {
    match p
    case Solid(token) => TokenOk(token)
    case Blank(c) => IsGap(c)
    case LineComment(body, end) => end in "\n\r" && forall i :: 0 <= i < |body| ==> body[i] !in "\n\r"
    case BlockComment(body) => NeverCloses(body)
  }

  function PieceText(p: Piece): string {
    match p
    case Solid(token) => TokenText(token)
    case Blank(c) => [c]
    case LineComment(body, end) => "//" + (body + [end])
    case BlockComment(body) => "/*" + (body + "*/")
  }

  function TextOf(ps: seq<Piece>): string {
    if ps == [] then "" else PieceText(ps[0]) + TextOf(ps[1..])
  }

  function Tokens(ps: seq<Piece>): seq<Token> {
    if ps == [] then [] else Solids(ps[0]) + Tokens(ps[1..])
  }

  function Solids(p: Piece): seq<Token> { if p.Solid? then [p.token] else [] }

  /** A line comment without a line break may end the text. */
  function LastText(last: Option<string>): string { if last.Some? then "//" + last.value else "" }

  predicate LastOk(last: Option<string>) {
    last.Some? ==> forall i :: 0 <= i < |last.value| ==> last.value[i] !in "\n\r"
  }

  // ----- first pass on pieces -----

  function BreaksOf(body: string): seq<Piece> {
    if body == "" then [] else (if IsBreak(body[0]) then [Blank(body[0])] else []) + BreaksOf(body[1..])
  }

  function PlainPiece(p: Piece): seq<Piece> {
    match p
    case LineComment(_, end) => [Blank(end)]
    case BlockComment(body) => BreaksOf(body)
    case _ => [p]
  }

  function PlainPieces(ps: seq<Piece>): seq<Piece> {
    if ps == [] then [] else PlainPiece(ps[0]) + PlainPieces(ps[1..])
  }

  lemma {:induction false} TextOfAppend(a: seq<Piece>, b: seq<Piece>)
    ensures TextOf(a + b) == TextOf(a) + TextOf(b)
  {
    if a == [] {
      assert a + b == b;
    } else {
      assert (a + b)[1..] == a[1..] + b;
      TextOfAppend(a[1..], b);
      Assoc(PieceText(a[0]), TextOf(a[1..]), TextOf(b));
    }
  }

  lemma TokensCons(p: Piece, rest: seq<Piece>)
    ensures Tokens([p] + rest) == Solids(p) + Tokens(rest)
  {
    assert ([p] + rest)[1..] == rest;
  }

  lemma {:induction false} TokensAppend(a: seq<Piece>, b: seq<Piece>)
    ensures Tokens(a + b) == Tokens(a) + Tokens(b)
  {
    if a == [] {
      assert a + b == b;
    } else {
      TokensAppend(a[1..], b);
      hide Tokens, Solids;
      TokensCons(a[0], a[1..]);
      TokensCons(a[0], a[1..] + b);
      assert a == [a[0]] + a[1..];
      Assoc([a[0]], a[1..], b);
      Assoc(Solids(a[0]), Tokens(a[1..]), Tokens(b));
    }
  }

  /** The first pass turns `s` into `t` and carries on with `rest` in code. */
  ghost predicate Passes(s: string, t: string, rest: string) {
    Uncommented(s, Code) == t + Uncommented(rest, Code) && EndMode(s, Code) == EndMode(rest, Code)
  }

  lemma PassesOne(c: char, rest: string)
    requires c != '/' && c != '"'
    ensures Passes([c] + rest, [c], rest)
  {
    assert ([c] + rest)[1..] == rest;
  }

  lemma PassesThen(a: string, t: string, b: string, u: string, c: string)
    requires Passes(a, t, b) && Passes(b, u, c)
    ensures Passes(a, t + u, c)
  {
    Assoc(t, u, Uncommented(c, Code));
  }

  lemma {:induction false} PassesBare(text: string, rest: string)
    requires forall i :: 0 <= i < |text| ==> IsBareChar(text[i])
    ensures Passes(text + rest, text, rest)
  {
    if text == "" {
      assert text + rest == rest && "" + Uncommented(rest, Code) == Uncommented(rest, Code);
    } else {
      hide Passes;
      assert text + rest == [text[0]] + (text[1..] + rest) && text == [text[0]] + text[1..];
      PassesOne(text[0], text[1..] + rest);
      PassesBare(text[1..], rest);
      PassesThen(text + rest, [text[0]], text[1..] + rest, text[1..], rest);
    }
  }

  lemma StepInString(c: char, rest: string, escaped: bool)
    ensures var s := [c] + rest;
            Uncommented(s, Str(escaped)) == [c] + Uncommented(rest, AfterChar(Str(escaped), c))
            && EndMode(s, Str(escaped)) == EndMode(rest, AfterChar(Str(escaped), c))
  {
    assert ([c] + rest)[1..] == rest;
  }

  lemma {:induction false} PassesBody(body: string, rest: string)
    requires BodyOk(body)
    ensures var s := body + (['"'] + rest);
            Uncommented(s, Str(false)) == body + (['"'] + Uncommented(rest, Code)) && EndMode(s, Str(false)) == EndMode(rest, Code)
    decreases |body|
  {
    hide Uncommented, EndMode;
    var tail := ['"'] + rest;
    if body == "" {
      StepInString('"', rest, false);
      assert body + tail == tail && body + (['"'] + Uncommented(rest, Code)) == ['"'] + Uncommented(rest, Code);
    } else if body[0] == '\\' {
      var more := body[2..] + tail;
      assert body + tail == [body[0]] + ([body[1]] + more);
      StepInString(body[0], [body[1]] + more, false);
      StepInString(body[1], more, true);
      PassesBody(body[2..], rest);
      assert body == [body[0]] + ([body[1]] + body[2..]);
    } else {
      var more := body[1..] + tail;
      assert body + tail == [body[0]] + more;
      StepInString(body[0], more, false);
      PassesBody(body[1..], rest);
      assert body == [body[0]] + body[1..];
    }
  }

  lemma QuotedText(body: string, rest: string)
    ensures TokenText(Quoted(body)) + rest == ['"'] + (body + (['"'] + rest))
  {
    Assoc(['"'], body + ['"'], rest);
    Assoc(body, ['"'], rest);
  }

  lemma EntersString(tail: string)
    ensures Uncommented(['"'] + tail, Code) == ['"'] + Uncommented(tail, Str(false))
    ensures EndMode(['"'] + tail, Code) == EndMode(tail, Str(false))
  {
    assert (['"'] + tail)[1..] == tail;
  }

  lemma PassesQuoted(body: string, rest: string)
    requires BodyOk(body)
    ensures Passes(TokenText(Quoted(body)) + rest, TokenText(Quoted(body)), rest)
  {
    hide Uncommented, EndMode, BodyOk;
    QuotedText(body, rest);
    EntersString(body + (['"'] + rest));
    PassesBody(body, rest);
    QuotedText(body, Uncommented(rest, Code));
  }

  lemma {:induction false} LineEnds(body: string, end: char, rest: string)
    requires IsBreak(end) && forall i :: 0 <= i < |body| ==> !IsBreak(body[i])
    ensures var s := body + ([end] + rest);
            Uncommented(s, Line) == [end] + Uncommented(rest, Code) && EndMode(s, Line) == EndMode(rest, Code)
  {
    var s := body + ([end] + rest);
    if body == "" {
      assert s == [end] + rest && s[1..] == rest;
    } else {
      assert s[1..] == body[1..] + ([end] + rest);
      LineEnds(body[1..], end, rest);
      assert "" + Uncommented(s[1..], Line) == Uncommented(s[1..], Line);
    }
  }

  lemma {:induction false} LineNeverEnds(body: string)
    requires forall i :: 0 <= i < |body| ==> !IsBreak(body[i])
    ensures Uncommented(body, Line) == "" && EndMode(body, Line) == Line
  {
    if body != "" {
      LineNeverEnds(body[1..]);
    }
  }

  lemma StarInside(body: string, rest: string)
    requires body != "" && !ClosesBlock(body)
    ensures !ClosesBlock(body + ("*/" + rest))
  {
    var s := body + ("*/" + rest);
    if |body| == 1 {
      assert s[1] == '*';
    }
  }

  lemma {:induction false} BlockEnds(body: string, rest: string)
    requires NeverCloses(body)
    ensures var s := body + ("*/" + rest);
            Uncommented(s, Block) == TextOf(BreaksOf(body)) + Uncommented(rest, Code) && EndMode(s, Block) == EndMode(rest, Code)
  {
    var s := body + ("*/" + rest);
    if body == "" {
      assert s == "*/" + rest && s[2..] == rest;
    } else {
      assert s[1..] == body[1..] + ("*/" + rest);
      BlockEnds(body[1..], rest);
      StarInside(body, rest);
      var kept := if IsBreak(body[0]) then [Blank(body[0])] else [];
      TextOfAppend(kept, BreaksOf(body[1..]));
      assert TextOf(kept) == Step(s, Block).piece by {
        if IsBreak(body[0]) { assert kept[1..] == [] && [body[0]] + "" == [body[0]]; }
      }
      Assoc(TextOf(kept), TextOf(BreaksOf(body[1..])), Uncommented(rest, Code));
    }
  }

  lemma EntersComment(inside: string)
    ensures Uncommented("//" + inside, Code) == Uncommented(inside, Line) && EndMode("//" + inside, Code) == EndMode(inside, Line)
    ensures Uncommented("/*" + inside, Code) == Uncommented(inside, Block) && EndMode("/*" + inside, Code) == EndMode(inside, Block)
  {
    assert ("//" + inside)[2..] == inside && ("/*" + inside)[2..] == inside;
  }

  lemma PassesComment(p: Piece, rest: string)
    requires PieceOk(p) && (p.LineComment? || p.BlockComment?)
    ensures Passes(PieceText(p) + rest, TextOf(PlainPiece(p)), rest)
  {
    hide Uncommented, EndMode, TextOf;
    match p
    case LineComment(body, end) =>
      Assoc("//", body + [end], rest);
      Assoc(body, [end], rest);
      EntersComment(body + ([end] + rest));
      LineEnds(body, end, rest);
      OneBlank(end);
    case BlockComment(body) =>
      Assoc("/*", body + "*/", rest);
      Assoc(body, "*/", rest);
      EntersComment(body + ("*/" + rest));
      BlockEnds(body, rest);
  }

  lemma OneBlank(c: char)
    ensures TextOf([Blank(c)]) == [c]
  {
    assert [Blank(c)][1..] == [] && [c] + "" == [c];
  }

  lemma PassesPiece(p: Piece, rest: string)
    requires PieceOk(p)
    ensures Passes(PieceText(p) + rest, TextOf(PlainPiece(p)), rest)
  {
    if p.LineComment? || p.BlockComment? {
      PassesComment(p, rest);
    } else {
      assert PlainPiece(p) == [p] && [p][1..] == [] && PieceText(p) + "" == PieceText(p);
      hide Passes;
      match p
      case Blank(c) => PassesOne(c, rest);
      case Solid(token) =>
        match token
        case Mark(c) => PassesOne(c, rest);
        case Quoted(body) => PassesQuoted(body, rest);
        case Bare(text) => PassesBare(text, rest);
    }
  }

  lemma PassesLast(last: Option<string>)
    requires LastOk(last)
    ensures Uncommented(LastText(last), Code) == "" && Terminated(EndMode(LastText(last), Code))
  {
    if last.Some? {
      assert LastText(last)[2..] == last.value;
      LineNeverEnds(last.value);
    }
  }

  lemma {:induction false} FirstPass(ps: seq<Piece>, rest: string)
    requires forall p :: p in ps ==> PieceOk(p)
    ensures Passes(TextOf(ps) + rest, TextOf(PlainPieces(ps)), rest)
  {
    if ps == [] {
      assert TextOf(ps) + rest == rest && "" + Uncommented(rest, Code) == Uncommented(rest, Code);
    } else {
      hide Passes;
      var more := TextOf(ps[1..]) + rest;
      Assoc(PieceText(ps[0]), TextOf(ps[1..]), rest);
      PassesPiece(ps[0], more);
      FirstPass(ps[1..], rest);
      PassesThen(TextOf(ps) + rest, TextOf(PlainPiece(ps[0])), more, TextOf(PlainPieces(ps[1..])), rest);
      TextOfAppend(PlainPiece(ps[0]), PlainPieces(ps[1..]));
    }
  }

  // ----- second pass on pieces -----

  predicate Plain(p: Piece) { p.Solid? || p.Blank? }

  function NextToken(ps: seq<Piece>): Option<Token> {
    if ps == [] then None else if ps[0].Solid? then Some(ps[0].token) else NextToken(ps[1..])
  }

  predicate ClosesToken(t: Option<Token>) { t.Some? && t.value.Mark? && t.value.c in "}]" }

  function CommasDropped(ps: seq<Piece>): seq<Piece> {
    if ps == [] then []
    else if ps[0] == Solid(Mark(',')) && ClosesToken(NextToken(ps[1..])) then CommasDropped(ps[1..])
    else [ps[0]] + CommasDropped(ps[1..])
  }

  /** A comma goes when the token after it closes a container. */
  function TrailingDropped(ts: seq<Token>): seq<Token> {
    if ts == [] then []
    else if ts[0] == Mark(',') && |ts| > 1 && ClosesToken(Some(ts[1])) then TrailingDropped(ts[1..])
    else [ts[0]] + TrailingDropped(ts[1..])
  }

  lemma TrimStep(c: char, rest: string, mode: Mode)
    ensures Trimmed([c] + rest, mode) ==
            (if mode == Code && c == ',' && ClosesNext(rest) then "" else [c]) + Trimmed(rest, AfterChar(mode, c))
  {
    assert ([c] + rest)[1..] == rest;
  }

  lemma {:induction false} TrimBare(text: string, rest: string)
    requires forall i :: 0 <= i < |text| ==> IsBareChar(text[i])
    ensures Trimmed(text + rest, Code) == text + Trimmed(rest, Code)
  {
    hide Trimmed;
    if text == "" {
      assert text + rest == rest && text + Trimmed(rest, Code) == Trimmed(rest, Code);
    } else {
      assert text + rest == [text[0]] + (text[1..] + rest) && text == [text[0]] + text[1..];
      TrimStep(text[0], text[1..] + rest, Code);
      TrimBare(text[1..], rest);
      Assoc([text[0]], text[1..], Trimmed(rest, Code));
    }
  }

  lemma {:induction false} TrimBody(body: string, rest: string)
    requires BodyOk(body)
    ensures Trimmed(body + (['"'] + rest), Str(false)) == body + (['"'] + Trimmed(rest, Code))
    decreases |body|
  {
    hide Trimmed;
    var tail := ['"'] + rest;
    if body == "" {
      TrimStep('"', rest, Str(false));
      assert body + tail == tail && body + (['"'] + Trimmed(rest, Code)) == ['"'] + Trimmed(rest, Code);
    } else if body[0] == '\\' {
      var more := body[2..] + tail;
      assert body + tail == [body[0]] + ([body[1]] + more);
      TrimStep(body[0], [body[1]] + more, Str(false));
      TrimStep(body[1], more, Str(true));
      TrimBody(body[2..], rest);
      assert body == [body[0]] + ([body[1]] + body[2..]);
    } else {
      var more := body[1..] + tail;
      assert body + tail == [body[0]] + more;
      TrimStep(body[0], more, Str(false));
      TrimBody(body[1..], rest);
      assert body == [body[0]] + body[1..];
    }
  }

  lemma TrimPiece(p: Piece, rest: string)
    requires PieceOk(p) && Plain(p)
    ensures Trimmed(PieceText(p) + rest, Code) ==
            (if p == Solid(Mark(',')) && ClosesNext(rest) then "" else PieceText(p)) + Trimmed(rest, Code)
  {
    hide Trimmed, ClosesNext;
    match p
    case Blank(c) => TrimStep(c, rest, Code);
    case Solid(token) =>
      match token
      case Mark(c) => TrimStep(c, rest, Code);
      case Bare(text) => TrimBare(text, rest);
      case Quoted(body) =>
        QuotedText(body, rest);
        TrimStep('"', body + (['"'] + rest), Code);
        TrimBody(body, rest);
        QuotedText(body, Trimmed(rest, Code));
  }

  lemma TokenStart(t: Token, rest: string)
    requires TokenOk(t)
    ensures var s := TokenText(t) + rest;
            s != "" && !IsSpace(s[0]) && (IsCloser(s[0]) <==> ClosesToken(Some(t)))
  {
  }

  lemma {:induction false} ClosesNextIff(qs: seq<Piece>)
    requires forall p :: p in qs ==> PieceOk(p) && Plain(p)
    ensures ClosesNext(TextOf(qs)) <==> ClosesToken(NextToken(qs))
  {
    if qs != [] {
      ClosesNextIff(qs[1..]);
      assert PieceOk(qs[0]) && Plain(qs[0]);
      match qs[0]
      case Blank(c) => SkipOne(c, TextOf(qs[1..]));
      case Solid(token) => TokenStart(token, TextOf(qs[1..]));
    }
  }

  lemma {:induction false} SecondPass(qs: seq<Piece>)
    requires forall p :: p in qs ==> PieceOk(p) && Plain(p)
    ensures Trimmed(TextOf(qs), Code) == TextOf(CommasDropped(qs))
  {
    if qs != [] {
      assert PieceOk(qs[0]) && Plain(qs[0]);
      SecondPass(qs[1..]);
      ClosesNextIff(qs[1..]);
      TrimPiece(qs[0], TextOf(qs[1..]));
      hide ClosesNext, PieceText, Trimmed, NextToken;
      if qs[0] == Solid(Mark(',')) && ClosesToken(NextToken(qs[1..])) {
        assert "" + Trimmed(TextOf(qs[1..]), Code) == Trimmed(TextOf(qs[1..]), Code);
      } else {
        assert ([qs[0]] + CommasDropped(qs[1..]))[1..] == CommasDropped(qs[1..]);
      }
    }
  }

  // ----- tokens of the pieces that stay -----

  lemma {:induction false} BreaksAreBlank(body: string)
    ensures Tokens(BreaksOf(body)) == []
    ensures forall p :: p in BreaksOf(body) ==> PieceOk(p) && Plain(p)
  {
    if body != "" {
      BreaksAreBlank(body[1..]);
      var kept := if IsBreak(body[0]) then [Blank(body[0])] else [];
      TokensAppend(kept, BreaksOf(body[1..]));
    }
  }

  lemma PlainPieceTokens(p: Piece)
    requires PieceOk(p)
    ensures Tokens(PlainPiece(p)) == Tokens([p])
    ensures forall q :: q in PlainPiece(p) ==> PieceOk(q) && Plain(q)
  {
    if p.BlockComment? { BreaksAreBlank(p.body); }
    assert [p][1..] == [];
    if p.LineComment? { assert [Blank(p.end)][1..] == []; }
  }

  lemma {:induction false} PlainTokens(ps: seq<Piece>)
    requires forall p :: p in ps ==> PieceOk(p)
    ensures Tokens(PlainPieces(ps)) == Tokens(ps)
    ensures forall p :: p in PlainPieces(ps) ==> PieceOk(p) && Plain(p)
  {
    if ps != [] {
      var p := ps[0];
      assert PieceOk(p);
      PlainTokens(ps[1..]);
      PlainPieceTokens(p);
      hide Tokens, PieceOk, Plain, PlainPiece;
      TokensAppend(PlainPiece(p), PlainPieces(ps[1..]));
      TokensAppend([p], ps[1..]);
      assert [p] + ps[1..] == ps;
    }
  }

  lemma {:induction false} NextTokenFirst(ps: seq<Piece>)
    ensures NextToken(ps) == if Tokens(ps) == [] then None else Some(Tokens(ps)[0])
  {
    if ps != [] {
      NextTokenFirst(ps[1..]);
    }
  }

  lemma {:induction false} DroppedAreKept(ps: seq<Piece>)
    ensures forall p :: p in CommasDropped(ps) ==> p in ps
  {
    if ps != [] {
      DroppedAreKept(ps[1..]);
      hide NextToken;
    }
  }

  lemma {:induction false} DroppedTokens(ps: seq<Piece>)
    ensures Tokens(CommasDropped(ps)) == TrailingDropped(Tokens(ps))
  {
    if ps != [] {
      var p, rest, ts := ps[0], CommasDropped(ps[1..]), Tokens(ps[1..]);
      var drops := p == Solid(Mark(',')) && ClosesToken(NextToken(ps[1..]));
      DroppedTokens(ps[1..]);
      NextTokenFirst(ps[1..]);
      assert CommasDropped(ps) == if drops then rest else [p] + rest;
      TokensCons(p, ps[1..]);
      TokensCons(p, rest);
      assert [p] + ps[1..] == ps;
      hide CommasDropped, Tokens, NextToken;
      if p.Solid? {
        TrailingCons(p.token, ts);
      } else {
        assert Solids(p) + ts == ts && Solids(p) + Tokens(rest) == Tokens(rest);
      }
    }
  }

  lemma TrailingCons(t: Token, ts: seq<Token>)
    ensures TrailingDropped([t] + ts) ==
            if t == Mark(',') && ts != [] && ClosesToken(Some(ts[0])) then TrailingDropped(ts) else [t] + TrailingDropped(ts)
  {
    assert ([t] + ts)[1..] == ts;
  }
}
