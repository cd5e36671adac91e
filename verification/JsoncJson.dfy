/** Whole JSON values: whatever gaps are written between their tokens, a JSON reader gets the plain value. */
module JsoncJson {
  import opened Text
  import opened Jsonc
  import opened JsoncTokens
  import opened JsoncReading
  import opened JsoncSpacing

  // ----- JSON values -----

  /** Numbers and literal names, strings, arrays and objects; a container may end in one trailing comma. */
  datatype Json = Scalar(text: string) | Text(body: string) | Container(brace: bool, entries: seq<Entry>, trailing: bool)

  /** Members of an object have a key. */
  datatype Entry = Entry(key: Option<string>, value: Json)

  function Opening(brace: bool): Token { Mark(if brace then '{' else '[') }
  function Closing(brace: bool): Token { Mark(if brace then '}' else ']') }
  const COMMA := Mark(',')

  function KeyTokens(key: Option<string>): seq<Token> { if key.Some? then [Quoted(key.value), Mark(':')] else [] }

  /** The tokens of a value as written; `kept` tells whether trailing commas are there. */
  function Written(v: Json, kept: bool): seq<Token>
    decreases v
  {
    match v
    case Scalar(text) => [Bare(text)]
    case Text(body) => [Quoted(body)]
    case Container(brace, entries, trailing) =>
      [Opening(brace)] + (WrittenEntries(entries, kept) + ((if trailing && kept then [COMMA] else []) + [Closing(brace)]))
  }

  function WrittenEntries(es: seq<Entry>, kept: bool): seq<Token>
    decreases es
  {
    if es == [] then []
    else
      WrittenEntry(es[0], kept) + (if |es| == 1 then [] else [COMMA] + WrittenEntries(es[1..], kept))
  }

  function WrittenEntry(e: Entry, kept: bool): seq<Token>
    decreases e
  {
    KeyTokens(e.key) + Written(e.value, kept)
  }

  lemma Pair<T>(a: T, b: T, rest: seq<T>)
    ensures [a, b] + rest == [a] + ([b] + rest)
  {
  }

  lemma KeyDropped(key: Option<string>, rest: seq<Token>)
    ensures TrailingDropped(KeyTokens(key) + rest) == KeyTokens(key) + TrailingDropped(rest)
  {
    if key.Some? {
      hide TrailingDropped;
      var k, colon, dropped := Quoted(key.value), Mark(':'), TrailingDropped(rest);
      TrailingCons(k, [colon] + rest);
      TrailingCons(colon, rest);
      Pair(k, colon, rest);
      Pair(k, colon, dropped);
    } else {
      assert KeyTokens(key) + rest == rest && KeyTokens(key) + TrailingDropped(rest) == TrailingDropped(rest);
    }
  }

  /** An entry starts with a key or a value, never with a closing bracket. */
  lemma EntryStart(es: seq<Entry>, rest: seq<Token>)
    requires es != []
    ensures var ts := WrittenEntries(es, true) + rest; ts != [] && !ClosesToken(Some(ts[0]))
  {
    var v := es[0].value;
    assert Written(v, true) != [] && !ClosesToken(Some(Written(v, true)[0]));
  }

  /** Dropping trailing commas from the tokens of a value leaves those of the value without them. */
  lemma {:induction false} ValueDropped(v: Json, rest: seq<Token>)
    ensures TrailingDropped(Written(v, true) + rest) == Written(v, false) + TrailingDropped(rest)
    decreases v
  {
    match v
    case Scalar(text) => TrailingCons(Bare(text), rest);
    case Text(body) => TrailingCons(Quoted(body), rest);
    case Container(brace, entries, trailing) =>
      hide TrailingDropped, WrittenEntries;
      var end := [Closing(brace)] + rest;
      var comma := if trailing then [COMMA] else [];
      TrailingCons(Closing(brace), rest);
      TrailingCons(COMMA, end);
      assert TrailingDropped(comma + end) == TrailingDropped(end) by {
        if !trailing { assert comma + end == end; }
      }
      EntriesDropped(entries, comma + end);
      TrailingCons(Opening(brace), WrittenEntries(entries, true) + (comma + end));
      ContainerText(Opening(brace), WrittenEntries(entries, true), comma, Closing(brace), rest);
      ContainerText(Opening(brace), WrittenEntries(entries, false), [], Closing(brace), TrailingDropped(rest));
  }

  lemma ContainerText(opening: Token, inside: seq<Token>, comma: seq<Token>, closing: Token, rest: seq<Token>)
    ensures [opening] + (inside + (comma + [closing])) + rest == [opening] + (inside + (comma + ([closing] + rest)))
    ensures comma == [] ==> comma + ([closing] + rest) == [closing] + rest
  {
    Assoc([opening], inside + (comma + [closing]), rest);
    Assoc(inside, comma + [closing], rest);
    Assoc(comma, [closing], rest);
  }

  lemma {:induction false} EntriesDropped(es: seq<Entry>, rest: seq<Token>)
    ensures TrailingDropped(WrittenEntries(es, true) + rest) == WrittenEntries(es, false) + TrailingDropped(rest)
    decreases es
  {
    if es == [] {
      assert WrittenEntries(es, true) + rest == rest;
    } else {
      hide TrailingDropped, WrittenEntry;
      var more := if |es| == 1 then [] else [COMMA] + WrittenEntries(es[1..], true);
      var lean := if |es| == 1 then [] else [COMMA] + WrittenEntries(es[1..], false);
      assert TrailingDropped(more + rest) == lean + TrailingDropped(rest) by {
        if |es| == 1 {
          assert more + rest == rest && lean + TrailingDropped(rest) == TrailingDropped(rest);
        } else {
          EntriesDropped(es[1..], rest);
          EntryStart(es[1..], rest);
          Assoc([COMMA], WrittenEntries(es[1..], true), rest);
          Assoc([COMMA], WrittenEntries(es[1..], false), TrailingDropped(rest));
          TrailingCons(COMMA, WrittenEntries(es[1..], true) + rest);
        }
      }
      EntryDropped(es[0], more + rest);
      Assoc(WrittenEntry(es[0], true), more, rest);
      Assoc(WrittenEntry(es[0], false), lean, TrailingDropped(rest));
    }
  }

  lemma {:induction false} EntryDropped(e: Entry, rest: seq<Token>)
    ensures TrailingDropped(WrittenEntry(e, true) + rest) == WrittenEntry(e, false) + TrailingDropped(rest)
    decreases e
  {
    hide TrailingDropped, Written, KeyTokens;
    ValueDropped(e.value, rest);
    KeyDropped(e.key, Written(e.value, true) + rest);
    Assoc(KeyTokens(e.key), Written(e.value, true), rest);
    Assoc(KeyTokens(e.key), Written(e.value, false), TrailingDropped(rest));
  }

  // ----- values never put two bare tokens side by side -----

  lemma ConsApart(t: Token, rest: seq<Token>)
    requires NoBarePair(rest) && (t.Bare? ==> rest == [] || !rest[0].Bare?)
    ensures NoBarePair([t] + rest)
  {
    assert ([t] + rest)[1..] == rest;
  }

  lemma KeyApart(key: Option<string>, rest: seq<Token>)
    requires NoBarePair(rest)
    ensures NoBarePair(KeyTokens(key) + rest)
  {
    if key.Some? {
      ConsApart(Mark(':'), rest);
      ConsApart(Quoted(key.value), [Mark(':')] + rest);
      assert KeyTokens(key) + rest == [Quoted(key.value)] + ([Mark(':')] + rest);
    } else {
      assert KeyTokens(key) + rest == rest;
    }
  }

  lemma {:induction false} ValueApart(v: Json, rest: seq<Token>)
    requires NoBarePair(rest) && (rest == [] || !rest[0].Bare?)
    ensures NoBarePair(Written(v, true) + rest)
    decreases v
  {
    match v
    case Scalar(text) => ConsApart(Bare(text), rest);
    case Text(body) => ConsApart(Quoted(body), rest);
    case Container(brace, entries, trailing) =>
      hide WrittenEntries, NoBarePair;
      var end := [Closing(brace)] + rest;
      var comma := if trailing then [COMMA] else [];
      ConsApart(Closing(brace), rest);
      ConsApart(COMMA, end);
      assert !trailing ==> comma + end == end;
      EntriesApart(entries, comma + end);
      ConsApart(Opening(brace), WrittenEntries(entries, true) + (comma + end));
      ContainerText(Opening(brace), WrittenEntries(entries, true), comma, Closing(brace), rest);
  }

  lemma {:induction false} EntriesApart(es: seq<Entry>, rest: seq<Token>)
    requires NoBarePair(rest) && (rest == [] || !rest[0].Bare?)
    ensures NoBarePair(WrittenEntries(es, true) + rest)
    decreases es
  {
    if es == [] {
      assert WrittenEntries(es, true) + rest == rest;
    } else {
      hide NoBarePair, WrittenEntry;
      var more := if |es| == 1 then [] else [COMMA] + WrittenEntries(es[1..], true);
      if |es| == 1 {
        assert more + rest == rest;
      } else {
        EntriesApart(es[1..], rest);
        Assoc([COMMA], WrittenEntries(es[1..], true), rest);
        ConsApart(COMMA, WrittenEntries(es[1..], true) + rest);
      }
      EntryApart(es[0], more + rest);
      Assoc(WrittenEntry(es[0], true), more, rest);
    }
  }

  lemma {:induction false} EntryApart(e: Entry, rest: seq<Token>)
    requires NoBarePair(rest) && (rest == [] || !rest[0].Bare?)
    ensures NoBarePair(WrittenEntry(e, true) + rest)
    decreases e
  {
    hide NoBarePair, Written, KeyTokens;
    ValueApart(e.value, rest);
    KeyApart(e.key, Written(e.value, true) + rest);
    Assoc(KeyTokens(e.key), Written(e.value, true), rest);
  }

  /** A JSON value written with any whitespace and comments between its tokens, and at most one trailing
      comma per container, normalises to a text that reads as the plain value. */
  lemma CommentedJsonReadsPlain(v: Json, ps: seq<Piece>, last: Option<string>)
    requires (forall p :: p in ps ==> PieceOk(p)) && LastOk(last) && Tokens(ps) == Written(v, true)
    ensures var r := Normalized(TextOf(ps) + LastText(last)); r.Some? && Lex(r.value) == Some(Written(v, false))
  {
    hide Lex, Normalized, TextOf, LastText, Written, PieceOk, LastOk;
    assert TrailingDropped([]) == [] && NoBarePair([]);
    hide TrailingDropped, NoBarePair;
    ValueApart(v, []);
    ValueDropped(v, []);
    assert Written(v, true) + [] == Written(v, true) && Written(v, false) + [] == Written(v, false);
    NormalizedTokens(ps, last);
  }

  // ----- what can have been written -----

  lemma Uncons(t: Token, rest: seq<Token>, u: Token, more: seq<Token>)
    requires [t] + rest == [u] + more
    ensures t == u && rest == more
  {
    assert ([t] + rest)[0] == t && ([u] + more)[0] == u;
    assert ([t] + rest)[1..] == rest && ([u] + more)[1..] == more;
  }

  /** A token that closes nothing stands where it stood. */
  lemma Undropped(ts: seq<Token>, t: Token, rest: seq<Token>) returns (tail: seq<Token>)
    requires TrailingDropped(ts) == [t] + rest && !ClosesToken(Some(t))
    ensures ts == [t] + tail && TrailingDropped(tail) == rest
  {
    tail := ts[1..];
    if ts[0] == COMMA && |ts| > 1 && ClosesToken(Some(ts[1])) {
      assert TrailingDropped(tail) == [ts[1]] + TrailingDropped(tail[1..]);
      Uncons(ts[1], TrailingDropped(tail[1..]), t, rest);
    } else {
      Uncons(ts[0], TrailingDropped(tail), t, rest);
    }
  }

  /** Before a closing bracket one comma may have been dropped. */
  lemma UndroppedClosing(ts: seq<Token>, t: Token, rest: seq<Token>) returns (comma: bool, tail: seq<Token>)
    requires TrailingDropped(ts) == [t] + rest && ClosesToken(Some(t))
    ensures ts == (if comma then [COMMA] else []) + ([t] + tail) && TrailingDropped(tail) == rest
  {
    comma := ts[0] == COMMA && |ts| > 1 && ClosesToken(Some(ts[1]));
    tail := if comma then ts[2..] else ts[1..];
    if comma {
      assert ts == [COMMA] + ([ts[1]] + tail) && ts[1..][1..] == tail;
      Uncons(ts[1], TrailingDropped(tail), t, rest);
    } else {
      Uncons(ts[0], TrailingDropped(tail), t, rest);
      assert [] + ([t] + tail) == [t] + tail;
    }
  }

  /** Tokens that come down to a value are that value, or the same with trailing commas. */
  lemma {:induction false} ValueBack(v: Json, ts: seq<Token>, rest: seq<Token>) returns (w: Json, tail: seq<Token>)
    requires TrailingDropped(ts) == Written(v, false) + rest
    ensures ts == Written(w, true) + tail && TrailingDropped(tail) == rest && Written(w, false) == Written(v, false)
    decreases v
  {
    hide TrailingDropped, WrittenEntries;
    match v
    case Scalar(text) =>
      w := v;
      tail := Undropped(ts, Bare(text), rest);
    case Text(body) =>
      w := v;
      tail := Undropped(ts, Quoted(body), rest);
    case Container(brace, entries, trailing) =>
      var inside := WrittenEntries(entries, false);
      ContainerText(Opening(brace), inside, [], Closing(brace), rest);
      var after := Undropped(ts, Opening(brace), inside + ([Closing(brace)] + rest));
      var fs, more := EntriesBack(entries, after, [Closing(brace)] + rest);
      var comma;
      comma, tail := UndroppedClosing(more, Closing(brace), rest);
      w := Container(brace, fs, comma);
      ContainerText(Opening(brace), WrittenEntries(fs, true), if comma then [COMMA] else [], Closing(brace), tail);
  }

  lemma {:induction false} EntriesBack(es: seq<Entry>, ts: seq<Token>, rest: seq<Token>)
    returns (fs: seq<Entry>, tail: seq<Token>)
    requires TrailingDropped(ts) == WrittenEntries(es, false) + rest
    ensures ts == WrittenEntries(fs, true) + tail && TrailingDropped(tail) == rest
    ensures |fs| == |es| && WrittenEntries(fs, false) == WrittenEntries(es, false)
    decreases es
  {
    if es == [] {
      fs, tail := [], ts;
      assert [] + rest == rest && [] + ts == ts;
    } else {
      hide TrailingDropped, WrittenEntry;
      var lean := if |es| == 1 then [] else [COMMA] + WrittenEntries(es[1..], false);
      Assoc(WrittenEntry(es[0], false), lean, rest);
      var f, more := EntryBack(es[0], ts, lean + rest);
      if |es| == 1 {
        fs, tail := [f], more;
        assert lean + rest == rest;
        OneEntry(f, true);
        OneEntry(f, false);
      } else {
        Assoc([COMMA], WrittenEntries(es[1..], false), rest);
        var after := Undropped(more, COMMA, WrittenEntries(es[1..], false) + rest);
        var gs;
        gs, tail := EntriesBack(es[1..], after, rest);
        fs := [f] + gs;
        MoreEntries(f, gs, true);
        MoreEntries(f, gs, false);
        Assoc([COMMA], WrittenEntries(gs, true), tail);
        Assoc(WrittenEntry(f, true), [COMMA] + WrittenEntries(gs, true), tail);
      }
    }
  }

  lemma OneEntry(f: Entry, kept: bool)
    ensures WrittenEntries([f], kept) == WrittenEntry(f, kept)
  {
    hide WrittenEntry;
    assert WrittenEntry(f, kept) + [] == WrittenEntry(f, kept);
  }

  lemma MoreEntries(f: Entry, gs: seq<Entry>, kept: bool)
    requires gs != []
    ensures WrittenEntries([f] + gs, kept) == WrittenEntry(f, kept) + ([COMMA] + WrittenEntries(gs, kept))
  {
    hide WrittenEntry;
    assert ([f] + gs)[1..] == gs;
  }

  lemma {:induction false} EntryBack(e: Entry, ts: seq<Token>, rest: seq<Token>) returns (f: Entry, tail: seq<Token>)
    requires TrailingDropped(ts) == WrittenEntry(e, false) + rest
    ensures ts == WrittenEntry(f, true) + tail && TrailingDropped(tail) == rest
    ensures WrittenEntry(f, false) == WrittenEntry(e, false)
    decreases e
  {
    hide TrailingDropped, Written, KeyTokens;
    Assoc(KeyTokens(e.key), Written(e.value, false), rest);
    var after := KeyBack(e.key, ts, Written(e.value, false) + rest);
    var w;
    w, tail := ValueBack(e.value, after, rest);
    f := Entry(e.key, w);
    Assoc(KeyTokens(e.key), Written(w, true), tail);
  }

  lemma KeyBack(key: Option<string>, ts: seq<Token>, rest: seq<Token>) returns (tail: seq<Token>)
    requires TrailingDropped(ts) == KeyTokens(key) + rest
    ensures ts == KeyTokens(key) + tail && TrailingDropped(tail) == rest
  {
    hide TrailingDropped;
    if key.None? {
      tail := ts;
      assert KeyTokens(key) + rest == rest && KeyTokens(key) + ts == ts;
    } else {
      Pair(Quoted(key.value), Mark(':'), rest);
      var after := Undropped(ts, Quoted(key.value), [Mark(':')] + rest);
      tail := Undropped(after, Mark(':'), rest);
      Pair(Quoted(key.value), Mark(':'), tail);
    }
  }

  /** The text is written as these pieces, and what comments leave of them are the tokens of a value that differs
      from `v` in trailing commas only. */
  ghost predicate WritesValue(content: string, ps: seq<Piece>, last: Option<string>, w: Json, v: Json) {
    Spaced(content, ps, last) && Apart(ps) && Remaining(ps) == Written(w, true) && Written(w, false) == Written(v, false)
  }

  /** A reader finds a value in a normalised text if and only if the text was that value with white space and
      comments in its gaps and at most one trailing comma per container. */
  lemma ReadsValueIff(content: string, v: Json)
    ensures (Normalized(content).Some? && Lex(Normalized(content).value) == Some(Written(v, false))) <==>
            exists ps, last, w :: WritesValue(content, ps, last, w, v)
  {
    hide Normalized, Lex, Spaced, Apart, Remaining, Written;
    assert TrailingDropped([]) == [];
    ReadsIff(content, Written(v, false));
    if ps, last :| WritesTokens(content, ps, last, Written(v, false)) {
      hide TrailingDropped;
      assert Written(v, false) + [] == Written(v, false);
      var w, tail := ValueBack(v, Remaining(ps), []);
      NothingLeft(tail);
      assert Written(w, true) + [] == Written(w, true);
      assert WritesValue(content, ps, last, w, v);
    }
    if ps, last, w :| WritesValue(content, ps, last, w, v) {
      hide TrailingDropped;
      ValueDropped(w, []);
      assert Written(w, true) + [] == Written(w, true) && Written(w, false) + [] == Written(w, false);
      assert WritesTokens(content, ps, last, Written(v, false));
    }
  }

  lemma NothingLeft(tail: seq<Token>)
    requires TrailingDropped(tail) == []
    ensures tail == []
  {
    if tail != [] { DroppedHead(tail); }
  }
}
