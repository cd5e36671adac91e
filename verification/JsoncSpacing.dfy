/** Which texts a JSON reader can read once they are normalised: exactly the spaced writings of tokens. */
module JsoncSpacing {
  import opened Text
  import opened Jsonc
  import opened JsoncTokens
  import opened JsoncReading

  // ----- readable characters -----

  /** Outside strings only JSON's characters stand, and no string is open at the end. */
  predicate Readable(s: string, mode: Mode)
    decreases |s|
  {
    if s == "" then mode == Code
    else
      (mode == Code ==> IsSpace(s[0]) || IsMark(s[0]) || IsBareChar(s[0]) || s[0] == '"')
      && Readable(s[1..], AfterChar(mode, s[0]))
  }

  lemma {:induction false} BodyReadable(s: string)
    requires ReadBody(s).Some? && Readable(ReadBody(s).value.1, Code)
    ensures Readable(s, Str(false))
    decreases |s|
  {
    if s[0] == '\\' {
      BodyReadable(s[2..]);
      assert s[1..][1..] == s[2..];
    } else if s[0] != '"' {
      BodyReadable(s[1..]);
    }
  }

  lemma {:induction false} BareReadable(s: string)
    requires Readable(s[BareLength(s)..], Code)
    ensures Readable(s, Code)
  {
    if s != "" && IsBareChar(s[0]) {
      assert s[1..][BareLength(s[1..])..] == s[BareLength(s)..];
      BareReadable(s[1..]);
    } else {
      assert s[0..] == s;
    }
  }

  lemma {:induction false} LexReadable(s: string)
    requires Lex(s).Some?
    ensures Readable(s, Code)
    decreases |s|
  {
    hide ReadBody, BareLength;
    if s == "" {
    } else if IsSpace(s[0]) || IsMark(s[0]) {
      LexReadable(s[1..]);
    } else if s[0] == '"' {
      ReadBodyShrinks(s[1..]);
      LexReadable(ReadBody(s[1..]).value.1);
      BodyReadable(s[1..]);
    } else {
      LexReadable(s[BareLength(s)..]);
      BareReadable(s);
    }
  }

  lemma {:induction false} TrimmedReadable(t: string, mode: Mode)
    requires (mode == Code || mode.Str?) && Readable(Trimmed(t, mode), mode)
    ensures Readable(t, mode)
    decreases |t|
  {
    if t != "" {
      hide ClosesNext;
      var rest := Trimmed(t[1..], AfterChar(mode, t[0]));
      if Dropped(t, mode) {
        assert "" + rest == rest;
      } else {
        assert ([t[0]] + rest)[1..] == rest;
      }
      TrimmedReadable(t[1..], AfterChar(mode, t[0]));
    }
  }

  lemma {:induction false} ReadableTail(a: string, rest: string, mode: Mode)
    requires Readable(a + rest, mode)
    ensures Readable(rest, AfterText(mode, a))
    decreases |a|
  {
    if a == "" {
      assert a + rest == rest;
    } else {
      assert (a + rest)[1..] == a[1..] + rest;
      ReadableTail(a[1..], rest, AfterChar(mode, a[0]));
    }
  }

  // ----- pieces end outside strings -----

  lemma {:induction false} AfterBody(body: string)
    requires BodyOk(body)
    ensures AfterText(Str(false), body + ['"']) == Code
    decreases |body|
  {
    var s := body + ['"'];
    if body == "" {
      assert s == ['"'] && s[1..] == "";
    } else if body[0] == '\\' {
      assert s[1..][1..] == body[2..] + ['"'];
      AfterBody(body[2..]);
    } else {
      assert s[1..] == body[1..] + ['"'];
      AfterBody(body[1..]);
    }
  }

  lemma {:induction false} AfterUnquoted(s: string)
    requires forall i :: 0 <= i < |s| ==> s[i] != '"'
    ensures AfterText(Code, s) == Code
  {
    if s != "" {
      AfterUnquoted(s[1..]);
    }
  }

  lemma {:induction false} BreaksUnquoted(body: string)
    ensures forall i :: 0 <= i < |TextOf(BreaksOf(body))| ==> TextOf(BreaksOf(body))[i] != '"'
  {
    if body != "" {
      BreaksUnquoted(body[1..]);
      if IsBreak(body[0]) {
        assert ([Blank(body[0])] + BreaksOf(body[1..]))[1..] == BreaksOf(body[1..]);
      } else {
        assert [] + BreaksOf(body[1..]) == BreaksOf(body[1..]);
      }
    }
  }

  lemma AfterPiece(p: Piece)
    requires PieceOk(p)
    ensures AfterText(Code, TextOf(PlainPiece(p))) == Code
  {
    var none: string := "";
    hide BodyOk, NeverCloses, AfterText;
    if p.BlockComment? {
      BreaksUnquoted(p.body);
      AfterUnquoted(TextOf(PlainPiece(p)));
    } else if p.LineComment? {
      OneBlank(p.end);
      AfterUnquoted([p.end]);
    } else {
      assert [p][1..] == [] && PieceText(p) + none == PieceText(p);
      if p.Solid? && p.token.Quoted? {
        AfterQuoted(p.token.body);
      } else {
        AfterUnquoted(PieceText(p));
      }
    }
  }

  lemma AfterQuoted(body: string)
    requires BodyOk(body)
    ensures AfterText(Code, TokenText(Quoted(body))) == Code
  {
    var s := TokenText(Quoted(body));
    assert s[0] == '"' && s[1..] == body + ['"'];
    AfterBody(body);
    hide BodyOk;
  }

  // ----- the first piece of a text -----

  lemma {:induction false} LineSplits(s: string) returns (body: string, rest: string)
    ensures s == body + rest && (rest != "" ==> IsBreak(rest[0])) && forall i :: 0 <= i < |body| ==> !IsBreak(body[i])
  {
    if s == "" || IsBreak(s[0]) {
      body, rest := "", s;
    } else {
      body, rest := LineSplits(s[1..]);
      body := [s[0]] + body;
    }
  }

  lemma {:induction false} BlockSplits(s: string) returns (body: string, rest: string)
    requires EndMode(s, Block) != Block
    ensures s == body + ("*/" + rest) && NeverCloses(body)
    decreases |s|
  {
    if ClosesBlock(s) {
      body, rest := "", s[2..];
    } else {
      body, rest := BlockSplits(s[1..]);
      var shorter := body;
      body := [s[0]] + shorter;
      assert s[1..] == shorter + ("*/" + rest) && body[1..] == shorter;
      assert shorter != "" ==> shorter[0] == s[1];
    }
  }

  lemma {:induction false} StringSplits(s: string) returns (body: string, rest: string)
    requires EndMode(s, Str(false)) == Code || EndMode(s, Str(false)) == Line
    ensures s == body + (['"'] + rest) && BodyOk(body)
    decreases |s|
  {
    if s[0] == '"' {
      body, rest := "", s[1..];
    } else if s[0] == '\\' {
      assert s[1..] == "" ==> EndMode(s, Str(false)) == Str(true);
      assert s[1..][1..] == s[2..];
      body, rest := StringSplits(s[2..]);
      var shorter := body;
      body := [s[0], s[1]] + shorter;
      assert body[2..] == shorter;
    } else {
      body, rest := StringSplits(s[1..]);
      var shorter := body;
      body := [s[0]] + shorter;
      assert body[1..] == shorter;
    }
  }

  lemma {:induction false} BareSplits(s: string)
    ensures var n := BareLength(s);
            (forall i :: 0 <= i < n ==> IsBareChar(s[i])) && (n < |s| ==> !IsBareChar(s[n]))
  {
    if s != "" && IsBareChar(s[0]) {
      BareSplits(s[1..]);
      forall i | 0 <= i < BareLength(s) ensures IsBareChar(s[i]) {
        assert i > 0 ==> s[i] == s[1..][i - 1];
      }
    }
  }

  /** A text with a piece at its front. */
  ghost predicate Starts(content: string, p: Piece, rest: string) {
    && content == PieceText(p) + rest && PieceOk(p) && |rest| < |content|
    && (BarePiece(p) ==> rest == "" || !IsBareChar(rest[0]))
  }

  lemma CommentStarts(content: string, body: string, more: string) returns (p: Piece, rest: string)
    requires OpensLine(content) && content[2..] == body + more && more != "" && IsBreak(more[0])
    requires forall i :: 0 <= i < |body| ==> !IsBreak(body[i])
    ensures Starts(content, p, rest)
  {
    p, rest := LineComment(body, more[0]), more[1..];
    assert content == "//" + content[2..] && more == [more[0]] + rest;
    Assoc(body, [more[0]], rest);
    Assoc("//", body + [more[0]], rest);
  }

  lemma BlockStarts(content: string) returns (p: Piece, rest: string)
    requires OpensBlock(content) && Terminated(EndMode(content, Code))
    ensures Starts(content, p, rest)
  {
    var inside := content[2..];
    assert content == "/*" + inside;
    EntersComment(inside);
    var body;
    body, rest := BlockSplits(inside);
    p := BlockComment(body);
    Assoc(body, "*/", rest);
    Assoc("/*", body + "*/", rest);
  }

  lemma StringStarts(content: string) returns (p: Piece, rest: string)
    requires content != "" && content[0] == '"' && Terminated(EndMode(content, Code))
    ensures Starts(content, p, rest)
  {
    var inside := content[1..];
    assert content == ['"'] + inside;
    EntersString(inside);
    var body;
    body, rest := StringSplits(inside);
    p := Solid(Quoted(body));
    QuotedText(body, rest);
  }

  lemma CharStarts(content: string) returns (p: Piece, rest: string)
    requires content != "" && !OpensLine(content) && !OpensBlock(content) && content[0] != '"'
    requires Readable(Uncommented(content, Code), Code)
    ensures Starts(content, p, rest)
  {
    var c := content[0];
    assert Uncommented(content, Code) == [c] + Uncommented(content[1..], Code);
    assert Uncommented(content, Code)[0] == c;
    hide Uncommented;
    assert content == [c] + content[1..];
    if IsSpace(c) {
      p, rest := Blank(c), content[1..];
    } else if IsMark(c) {
      p, rest := Solid(Mark(c)), content[1..];
    } else {
      var n := BareLength(content);
      BareSplits(content);
      p, rest := Solid(Bare(content[..n])), content[n..];
      assert content == content[..n] + content[n..];
    }
  }

  /** What follows a piece is as readable as the whole. */
  lemma RestReadable(content: string, p: Piece, rest: string)
    requires Starts(content, p, rest) && Terminated(EndMode(content, Code)) && Readable(Uncommented(content, Code), Code)
    ensures Terminated(EndMode(rest, Code)) && Readable(Uncommented(rest, Code), Code)
  {
    hide Uncommented, EndMode, Readable, PieceOk, PieceText, PlainPiece;
    PassesPiece(p, rest);
    AfterPiece(p);
    ReadableTail(TextOf(PlainPiece(p)), Uncommented(rest, Code), Code);
  }

  // ----- whole texts -----

  lemma SpacedCons(content: string, p: Piece, rest: string, ps: seq<Piece>, last: Option<string>)
    requires Starts(content, p, rest) && Spaced(rest, ps, last) && Apart(ps)
    ensures Spaced(content, [p] + ps, last) && Apart([p] + ps)
  {
    hide LastOk, Apart;
    assert ([p] + ps)[1..] == ps;
    Assoc(PieceText(p), TextOf(ps), LastText(last));
    if ps != [] && BarePiece(ps[0]) {
      assert PieceOk(ps[0]) && rest[0] == ps[0].token.text[0];
    }
    ApartCons(p, ps);
  }

  lemma ApartCons(p: Piece, ps: seq<Piece>)
    requires Apart(ps) && (ps != [] ==> !(BarePiece(p) && BarePiece(ps[0])))
    ensures Apart([p] + ps)
  {
    assert ([p] + ps)[1..] == ps;
  }

  lemma {:induction false} PiecesFound(content: string) returns (ps: seq<Piece>, last: Option<string>)
    requires Terminated(EndMode(content, Code)) && Readable(Uncommented(content, Code), Code)
    ensures Spaced(content, ps, last) && Apart(ps)
    decreases |content|
  {
    hide EndMode, Uncommented, Readable, Terminated, Starts;
    var p, rest;
    if content == "" {
      return [], None;
    } else if OpensLine(content) {
      var body, more := LineSplits(content[2..]);
      if more == "" {
        assert body + more == body && content == "//" + body && "" + content == content;
        return [], Some(body);
      }
      p, rest := CommentStarts(content, body, more);
    } else if OpensBlock(content) {
      p, rest := BlockStarts(content);
    } else if content[0] == '"' {
      p, rest := StringStarts(content);
    } else {
      p, rest := CharStarts(content);
    }
    Onwards(content, p, rest);
    ps, last := PiecesFound(rest);
    SpacedCons(content, p, rest, ps, last);
    ps := [p] + ps;
  }

  lemma Onwards(content: string, p: Piece, rest: string)
    requires Starts(content, p, rest) && Terminated(EndMode(content, Code)) && Readable(Uncommented(content, Code), Code)
    ensures |rest| < |content| && Terminated(EndMode(rest, Code)) && Readable(Uncommented(rest, Code), Code)
  {
    RestReadable(content, p, rest);
    hide EndMode, Uncommented, Readable;
  }

  /** Whatever a JSON reader can read after normalisation was a spaced writing of tokens, each as long as it can be. */
  lemma ReadableIsSpaced(content: string) returns (ps: seq<Piece>, last: Option<string>)
    requires Normalized(content).Some? && Lex(Normalized(content).value).Some?
    ensures Spaced(content, ps, last) && Apart(ps)
  {
    hide EndMode, Uncommented, Trimmed, Readable, Lex, Spaced, Apart;
    LexReadable(Normalized(content).value);
    TrimmedReadable(Uncommented(content, Code), Code);
    ps, last := PiecesFound(content);
  }

  /** The text as written has these pieces, and their remaining tokens without trailing commas are `ts`. */
  ghost predicate WritesTokens(content: string, ps: seq<Piece>, last: Option<string>, ts: seq<Token>) {
    Spaced(content, ps, last) && Apart(ps) && TrailingDropped(Remaining(ps)) == ts
  }

  /** A reader finds given tokens in a normalised text if and only if the text is a spaced writing of them. */
  lemma ReadsIff(content: string, ts: seq<Token>)
    ensures (Normalized(content).Some? && Lex(Normalized(content).value) == Some(ts)) <==>
            exists ps, last :: WritesTokens(content, ps, last, ts)
  {
    hide Normalized, Lex, Spaced, Apart, Remaining, TrailingDropped;
    if Normalized(content).Some? && Lex(Normalized(content).value) == Some(ts) {
      var ps, last := ReadableIsSpaced(content);
      NormalizedReads(content, ps, last);
      assert WritesTokens(content, ps, last, ts);
    }
    if ps, last :| WritesTokens(content, ps, last, ts) {
      NormalizedReads(content, ps, last);
    }
  }
}
