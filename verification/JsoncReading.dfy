/** What a JSON reader finds in a normalised text: exactly the tokens as written, unless removing a comment joins two. */
module JsoncReading {
  import opened Text
  import opened Jsonc
  import opened JsoncTokens

  // ----- reading spaced tokens -----

  predicate BarePiece(p: Piece) { p.Solid? && p.token.Bare? }

  /** Two bare tokens never touch. */
  predicate Apart(rs: seq<Piece>) {
    |rs| > 1 ==> !(BarePiece(rs[0]) && BarePiece(rs[1])) && Apart(rs[1..])
  }

  predicate NoBarePair(ts: seq<Token>) {
    |ts| > 1 ==> !(ts[0].Bare? && ts[1].Bare?) && NoBarePair(ts[1..])
  }

  lemma {:induction false} ReadsBody(body: string, rest: string)
    requires BodyOk(body)
    ensures ReadBody(body + (['"'] + rest)) == Some((body, rest))
    decreases |body|
  {
    var s := body + (['"'] + rest);
    if body == "" {
      assert s == ['"'] + rest && s[1..] == rest;
    } else if body[0] == '\\' {
      assert s[2..] == body[2..] + (['"'] + rest);
      ReadsBody(body[2..], rest);
      assert body == [body[0], body[1]] + body[2..];
    } else {
      assert s[1..] == body[1..] + (['"'] + rest);
      ReadsBody(body[1..], rest);
      assert body == [body[0]] + body[1..];
    }
  }

  lemma {:induction false} ReadsBare(text: string, rest: string)
    requires forall i :: 0 <= i < |text| ==> IsBareChar(text[i])
    requires rest == "" || !IsBareChar(rest[0])
    ensures BareLength(text + rest) == |text|
  {
    if text == "" {
      assert text + rest == rest;
    } else {
      assert (text + rest)[1..] == text[1..] + rest;
      ReadsBare(text[1..], rest);
    }
  }

  lemma LexToken(t: Token, rest: string)
    requires TokenOk(t) && (t.Bare? ==> rest == "" || !IsBareChar(rest[0]))
    ensures Lex(TokenText(t) + rest) == Cons(t, Lex(rest))
  {
    var s := TokenText(t) + rest;
    hide BodyOk, BareLength, ReadBody;
    match t
    case Mark(c) =>
      assert s[1..] == rest;
    case Quoted(body) =>
      QuotedText(body, rest);
      assert s[1..] == body + (['"'] + rest);
      ReadsBody(body, rest);
    case Bare(text) =>
      ReadsBare(text, rest);
      assert IsBareChar(s[0]);
      assert s[..|text|] == text && s[|text|..] == rest;
  }

  lemma LexBlank(c: char, rest: string)
    requires IsSpace(c)
    ensures Lex([c] + rest) == Lex(rest)
  {
    assert ([c] + rest)[1..] == rest;
  }

  lemma NotBareStart(rs: seq<Piece>)
    requires forall p :: p in rs ==> PieceOk(p) && Plain(p)
    requires rs != [] ==> !BarePiece(rs[0])
    ensures TextOf(rs) == "" || !IsBareChar(TextOf(rs)[0])
  {
    if rs != [] {
      assert PieceOk(rs[0]) && Plain(rs[0]);
    }
  }

  /** Spaced tokens are read back one by one. */
  lemma {:induction false} LexPieces(rs: seq<Piece>)
    requires (forall p :: p in rs ==> PieceOk(p) && Plain(p)) && Apart(rs)
    ensures Lex(TextOf(rs)) == Some(Tokens(rs))
  {
    if rs != [] {
      var rest := TextOf(rs[1..]);
      LexPieces(rs[1..]);
      assert PieceOk(rs[0]) && Plain(rs[0]);
      hide Lex, TokenOk;
      match rs[0]
      case Blank(c) =>
        LexBlank(c, rest);
        assert Tokens(rs) == Tokens(rs[1..]);
      case Solid(token) =>
        if token.Bare? { NotBareStart(rs[1..]); }
        LexToken(token, rest);
    }
  }

  lemma {:induction false} TokensApart(rs: seq<Piece>)
    requires NoBarePair(Tokens(rs)) && forall p :: p in rs ==> Plain(p)
    ensures Apart(rs)
  {
    if rs != [] {
      var p := rs[0];
      if p.Solid? {
        assert Tokens(rs)[1..] == Tokens(rs[1..]);
      } else {
        assert Tokens(rs) == Tokens(rs[1..]);
      }
      TokensApart(rs[1..]);
      if |rs| > 1 && BarePiece(rs[1]) {
        assert Tokens(rs[1..])[0] == rs[1].token;
      }
    }
  }

  lemma DroppedHead(ts: seq<Token>)
    requires ts != []
    ensures TrailingDropped(ts) != [] && (TrailingDropped(ts)[0].Bare? ==> ts[0].Bare?)
  {
  }

  // ----- joined tokens -----

  /** Neighbouring bare tokens read as one. */
  function Fused(rs: seq<Piece>): seq<Piece>
    decreases |rs|
  {
    if |rs| < 2 then rs
    else if BarePiece(rs[0]) && BarePiece(rs[1]) then Fused([Joined(rs[0], rs[1])] + rs[2..])
    else [rs[0]] + Fused(rs[1..])
  }

  function Joined(p: Piece, q: Piece): Piece
    requires BarePiece(p) && BarePiece(q)
  {
    Solid(Bare(p.token.text + q.token.text))
  }

  lemma JoinedText(rs: seq<Piece>)
    requires |rs| >= 2 && BarePiece(rs[0]) && BarePiece(rs[1])
    ensures TextOf([Joined(rs[0], rs[1])] + rs[2..]) == TextOf(rs)
    ensures (forall p :: p in rs ==> PieceOk(p) && Plain(p)) ==>
              forall p :: p in [Joined(rs[0], rs[1])] + rs[2..] ==> PieceOk(p) && Plain(p)
  {
    var joined := [Joined(rs[0], rs[1])] + rs[2..];
    assert joined[1..] == rs[2..] && rs[1..][1..] == rs[2..];
    Assoc(rs[0].token.text, rs[1].token.text, TextOf(rs[2..]));
    if forall p :: p in rs ==> PieceOk(p) && Plain(p) {
      assert PieceOk(rs[0]) && PieceOk(rs[1]);
    }
  }

  lemma {:induction false} FusedText(rs: seq<Piece>)
    ensures TextOf(Fused(rs)) == TextOf(rs)
    decreases |rs|
  {
    if |rs| >= 2 {
      if BarePiece(rs[0]) && BarePiece(rs[1]) {
        JoinedText(rs);
        FusedText([Joined(rs[0], rs[1])] + rs[2..]);
      } else {
        FusedText(rs[1..]);
        assert ([rs[0]] + Fused(rs[1..]))[1..] == Fused(rs[1..]);
      }
    }
  }

  lemma {:induction false} FusedApart(rs: seq<Piece>)
    ensures Apart(Fused(rs)) && (rs != [] ==> Fused(rs) != [] && (BarePiece(Fused(rs)[0]) <==> BarePiece(rs[0])))
    decreases |rs|
  {
    if |rs| >= 2 {
      if BarePiece(rs[0]) && BarePiece(rs[1]) {
        FusedApart([Joined(rs[0], rs[1])] + rs[2..]);
      } else {
        FusedApart(rs[1..]);
        assert ([rs[0]] + Fused(rs[1..]))[1..] == Fused(rs[1..]);
      }
    }
  }

  lemma {:induction false} FusedOk(rs: seq<Piece>)
    requires forall p :: p in rs ==> PieceOk(p) && Plain(p)
    ensures forall p :: p in Fused(rs) ==> PieceOk(p) && Plain(p)
    decreases |rs|
  {
    if |rs| >= 2 {
      if BarePiece(rs[0]) && BarePiece(rs[1]) {
        JoinedText(rs);
        FusedOk([Joined(rs[0], rs[1])] + rs[2..]);
      } else {
        FusedOk(rs[1..]);
      }
    }
  }

  function BareCount(ts: seq<Token>): nat {
    if ts == [] then 0 else (if ts[0].Bare? then 1 else 0) + BareCount(ts[1..])
  }

  lemma BareCountCons(p: Piece, rest: seq<Piece>)
    ensures BareCount(Tokens([p] + rest)) == (if BarePiece(p) then 1 else 0) + BareCount(Tokens(rest))
  {
    TokensCons(p, rest);
    assert p.Solid? ==> ([p.token] + Tokens(rest))[1..] == Tokens(rest);
    assert !p.Solid? ==> [] + Tokens(rest) == Tokens(rest);
  }

  /** Joining loses tokens, and only joining changes anything. */
  lemma {:induction false} FusedCount(rs: seq<Piece>)
    ensures Apart(rs) ==> Fused(rs) == rs
    ensures BareCount(Tokens(Fused(rs))) <= BareCount(Tokens(rs))
    ensures !Apart(rs) ==> BareCount(Tokens(Fused(rs))) < BareCount(Tokens(rs))
    decreases |rs|
  {
    hide BareCount, Tokens;
    if |rs| >= 2 {
      BareCountCons(rs[0], rs[1..]);
      assert [rs[0]] + rs[1..] == rs;
      if BarePiece(rs[0]) && BarePiece(rs[1]) {
        FusedCount([Joined(rs[0], rs[1])] + rs[2..]);
        BareCountCons(Joined(rs[0], rs[1]), rs[2..]);
        BareCountCons(rs[1], rs[2..]);
        assert [rs[1]] + rs[2..] == rs[1..];
      } else {
        FusedCount(rs[1..]);
        BareCountCons(rs[0], Fused(rs[1..]));
      }
    }
  }

  lemma {:induction false} DroppedCount(ts: seq<Token>)
    ensures BareCount(TrailingDropped(ts)) == BareCount(ts)
  {
    if ts != [] {
      DroppedCount(ts[1..]);
      assert ([ts[0]] + TrailingDropped(ts[1..]))[1..] == TrailingDropped(ts[1..]);
    }
  }

  lemma {:induction false} DroppedFront(rs: seq<Piece>)
    requires CommasDropped(rs) != [] && BarePiece(CommasDropped(rs)[0])
    ensures rs != [] && BarePiece(rs[0])
  {
    if rs[0] == Solid(Mark(',')) && ClosesToken(NextToken(rs[1..])) {
      DroppedFront(rs[1..]);
    }
  }

  lemma {:induction false} DroppedPiecesApart(rs: seq<Piece>)
    requires Apart(rs)
    ensures Apart(CommasDropped(rs))
  {
    if rs != [] {
      hide NextToken;
      var rest := CommasDropped(rs[1..]);
      DroppedPiecesApart(rs[1..]);
      if rest != [] && BarePiece(rest[0]) { DroppedFront(rs[1..]); }
      assert ([rs[0]] + rest)[1..] == rest;
    }
  }

  // ----- reading a normalised text -----

  /** `content` written as tokens with white space and comments in the gaps. */
  ghost predicate Spaced(content: string, ps: seq<Piece>, last: Option<string>) {
    content == TextOf(ps) + LastText(last) && LastOk(last) && forall p :: p in ps ==> PieceOk(p)
  }

  /** The tokens that are left once comments are gone, bare ones joined where nothing stays between them. */
  function Remaining(ps: seq<Piece>): seq<Token> { Tokens(Fused(PlainPieces(ps))) }

  /** Any spaced writing normalises, and reads as its remaining tokens without trailing commas. */
  lemma NormalizedReads(content: string, ps: seq<Piece>, last: Option<string>)
    requires Spaced(content, ps, last)
    ensures var r := Normalized(content); r.Some? && Lex(r.value) == Some(TrailingDropped(Remaining(ps)))
  {
    hide Uncommented, Trimmed, EndMode, Lex, PieceOk, LastText, LastOk, Plain, Fused, Apart, Tokens;
    var plain := PlainPieces(ps);
    var qs := Fused(plain);
    FirstPass(ps, LastText(last));
    PassesLast(last);
    assert TextOf(plain) + "" == TextOf(plain);
    PlainTokens(ps);
    FusedText(plain);
    FusedOk(plain);
    SecondPass(qs);
    DroppedTokens(qs);
    DroppedAreKept(qs);
    FusedApart(plain);
    DroppedPiecesApart(qs);
    LexPieces(CommasDropped(qs));
  }

  /** The tokens survive, trailing commas dropped, if and only if no two bare ones touch once comments are gone. */
  lemma NormalizedTokensIff(ps: seq<Piece>, last: Option<string>)
    requires (forall p :: p in ps ==> PieceOk(p)) && LastOk(last)
    ensures var r := Normalized(TextOf(ps) + LastText(last));
            r.Some? && (Lex(r.value) == Some(TrailingDropped(Tokens(ps))) <==> Apart(PlainPieces(ps)))
  {
    hide Normalized, Lex, PieceOk, LastText, LastOk, TextOf, Plain, Fused, Apart, Tokens, TrailingDropped, BareCount;
    NormalizedReads(TextOf(ps) + LastText(last), ps, last);
    PlainTokens(ps);
    FusedCount(PlainPieces(ps));
    DroppedCount(Tokens(ps));
    DroppedCount(Remaining(ps));
  }

  /** Tokens in which no two bare ones are neighbours always survive. */
  lemma NormalizedTokens(ps: seq<Piece>, last: Option<string>)
    requires (forall p :: p in ps ==> PieceOk(p)) && LastOk(last) && NoBarePair(Tokens(ps))
    ensures var r := Normalized(TextOf(ps) + LastText(last));
            r.Some? && Lex(r.value) == Some(TrailingDropped(Tokens(ps)))
  {
    hide Normalized, Lex, PieceOk, LastText, LastOk, TextOf, Apart, Tokens, TrailingDropped, NoBarePair;
    NormalizedTokensIff(ps, last);
    PlainTokens(ps);
    TokensApart(PlainPieces(ps));
  }

  /** Two bare tokens with a comment between them become one, whatever they are. */
  lemma CommentJoins(first: string, second: string)
    requires TokenOk(Bare(first)) && TokenOk(Bare(second))
    ensures var r := Normalized(first + ("/**/" + second)); r.Some? && Lex(r.value) == Some([Bare(first + second)])
  {
    hide TokenOk, Normalized, Lex;
    var a, gap, b := Solid(Bare(first)), BlockComment(""), Solid(Bare(second));
    var ps := [a, gap, b];
    var none: string := "";
    var s := first + ("/**/" + second);
    assert PieceOk(a) && PieceOk(gap) && PieceOk(b);
    assert ps[1..] == [gap, b] && ps[1..][1..] == [b] && ps[1..][1..][1..] == [];
    assert PieceText(gap) == "/**/" && second + none == second;
    assert TextOf([b]) == second + TextOf([b][1..]) && TextOf([gap, b]) == "/**/" + TextOf([gap, b][1..]);
    assert TextOf(ps) == first + TextOf([gap, b]) && [gap, b][1..] == [b] && [b][1..] == [];
    assert TextOf(ps) == s && s + none == s && LastText(None) == none;
    NormalizedReads(s, ps, None);
    hide Spaced, TextOf;
    GapVanishes(a, b);
    OneJoined(a, b);
  }

  lemma GapVanishes(a: Piece, b: Piece)
    requires a.Solid? && b.Solid?
    ensures PlainPieces([a, BlockComment(""), b]) == [a] + [b]
  {
    var gap := BlockComment("");
    assert [a, gap, b][1..] == [gap, b] && [gap, b][1..] == [b] && [b][1..] == [];
    assert PlainPieces([]) == [] && PlainPieces([b]) == [b] + PlainPieces([]);
    assert PlainPiece(gap) == [] && PlainPieces([gap, b]) == PlainPiece(gap) + PlainPieces([b]);
    assert PlainPieces([a, gap, b]) == [a] + PlainPieces([gap, b]);
  }

  lemma OneJoined(a: Piece, b: Piece)
    requires BarePiece(a) && BarePiece(b)
    ensures TrailingDropped(Tokens(Fused([a] + [b]))) == [Joined(a, b).token]
  {
    assert ([a] + [b])[2..] == [];
    assert [Joined(a, b)][1..] == [] && [Joined(a, b).token][1..] == [];
  }

  /** Two numbers with a comment between them are read as a single, different one. */
  lemma NumbersJoin()
    ensures var r := Normalized("1/**/2"); r.Some? && Lex(r.value) == Some([Bare("12")])
  {
    hide Normalized, Lex;
    CommentJoins("1", "2");
    assert "1" + ("/**/" + "2") == "1/**/2" && "1" + "2" == "12";
  }
}
