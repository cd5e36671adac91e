/** Splitting the options of a requirements line into words, with shell quoting. */
module PipWords {
  import opened Text

  // ----- the grammar -----

  /** One piece of a double-quoted string: a plain character, an escaped one, or a backslash that stays. */
  datatype Part = Char(c: char) | Quoted(c: char) | Kept(c: char)

  datatype Item =
    | Space(c: char)
    | Plain(c: char)
    | Escaped(c: char)
    | SingleQuoted(body: string)
    | DoubleQuoted(parts: seq<Part>)

  predicate PartOk(p: Part) {
    match p
    case Char(c) => c != '\\' && c != '"'
    case Quoted(c) => c in "\\\"$`"
    case Kept(c) => c !in "\\\"$`"
  }

  predicate ItemOk(item: Item) {
    match item
    case Space(c) => c in " \t"
    case Plain(c) => c !in " \t\\'\""
    case Escaped(c) => true
    case SingleQuoted(body) => '\'' !in body
    case DoubleQuoted(parts) => forall p :: p in parts ==> PartOk(p)
  }

  predicate ItemsOk(items: seq<Item>) { forall item :: item in items ==> ItemOk(item) }

  function PartText(p: Part): string { if p.Char? then [p.c] else ['\\', p.c] }

  function PartValue(p: Part): string { if p.Kept? then ['\\', p.c] else [p.c] }

  function PartsText(parts: seq<Part>): string {
    if parts == [] then ""
    else PartText(parts[0]) + PartsText(parts[1..])
  }

  function PartsValue(parts: seq<Part>): string {
    if parts == [] then ""
    else PartValue(parts[0]) + PartsValue(parts[1..])
  }

  function ItemText(item: Item): string {
    match item
    case Space(c) => [c]
    case Plain(c) => [c]
    case Escaped(c) => ['\\', c]
    case SingleQuoted(body) => "'" + (body + "'")
    case DoubleQuoted(parts) => "\"" + (PartsText(parts) + "\"")
  }

  function ItemValue(item: Item): string {
    match item
    case Space(c) => ""
    case Plain(c) => [c]
    case Escaped(c) => [c]
    case SingleQuoted(body) => body
    case DoubleQuoted(parts) => PartsValue(parts)
  }

  function ItemsText(items: seq<Item>): string {
    if items == [] then "" else ItemText(items[0]) + ItemsText(items[1..])
  }

  function Flushed(word: Option<string>): seq<string> { if word.Some? then [word.value] else [] }

  function Grown(word: Option<string>, more: string): Option<string> {
    Some((if word.Some? then word.value else "") + more)
  }

  /** Every maximal run of pieces other than blanks is one word, possibly empty. */
  function Words(items: seq<Item>, word: Option<string>): seq<string> {
    if items == [] then Flushed(word)
    else if items[0].Space? then Flushed(word) + Words(items[1..], None)
    else Words(items[1..], Grown(word, ItemValue(items[0])))
  }

  // ----- the scanner -----

  predicate IsSpace(c: char) { c == ' ' || c == '\t' }

  /** The characters a backslash escapes inside double quotes. */
  predicate IsSpecial(c: char) { c == '\\' || c == '"' || c == '$' || c == '`' }

  datatype Quote = Bare | Single | Double

  function Then(before: seq<string>, after: Option<seq<string>>): Option<seq<string>> {
    if after.Some? then Some(before + after.value) else None
  }

  lemma ThenTwice(a: seq<string>, b: seq<string>, after: Option<seq<string>>)
    ensures Then(a, Then(b, after)) == Then(a + b, after)
    ensures Then([], after) == after && Then(a, Some(b)) == Some(a + b)
  {
    if after.Some? {
      assert [] + after.value == after.value;
      assert (a + b) + after.value == a + (b + after.value);
    }
  }

  /** The words of `s` when `word` is under way and `quote` is open; none for an open quote or a final backslash. */
  function Scan(s: string, quote: Quote, word: Option<string>): Option<seq<string>>
    decreases |s|
  {
    if s == [] then (if quote == Bare then Some(Flushed(word)) else None)
    else if s[0] == '\\' && quote != Single then
      if |s| == 1 then None
      else if quote == Double && !IsSpecial(s[1]) then Scan(s[1..], quote, Grown(word, "\\"))
      else Scan(s[2..], quote, Grown(word, [s[1]]))
    else if quote != Bare then
      if s[0] == (if quote == Single then '\'' else '"') then Scan(s[1..], Bare, word)
      else Scan(s[1..], quote, Grown(word, [s[0]]))
    else if s[0] == '\'' then Scan(s[1..], Single, Grown(word, ""))
    else if s[0] == '"' then Scan(s[1..], Double, Grown(word, ""))
    else if IsSpace(s[0]) then Then(Flushed(word), Scan(s[1..], Bare, None))
    else Scan(s[1..], Bare, Grown(word, [s[0]]))
  }

  method SplitOptionWords(options: string) returns (r: Option<seq<string>>)
    ensures r == Scan(options, Bare, None)
  {
    var words: seq<string>, word, quote, started := [], "", Bare, false;
    var i := 0;
    assert options[0..] == options;
    ThenTwice([], [], Scan(options, Bare, None));
    hide Scan, Then;
    while i < |options|
      invariant 0 <= i <= |options|
      invariant (!started ==> word == "") && (quote != Bare ==> started)
      invariant Scan(options, Bare, None) == Then(words, Scan(options[i..], quote, if started then Some(word) else None))
    {
      var c := options[i];
      ghost var tail, current := options[i + 1..], if started then Some(word) else None;
      assert options[i..] == [c] + tail;
      GrownTwice(current, "", "");
      assert !started ==> word + [c] == [c];
      if c == '\\' && quote != Single {
        if i + 1 == |options| {
          LoneBackslash(options[i..], quote, current);
          return None;
        }
        var next := options[i + 1];
        assert options[i..] == ['\\', next] + options[i + 2..] && tail == [next] + options[i + 2..];
        assert !started ==> word + [next] == [next];
        if quote == Double && next != '\\' && next != '"' && next != '$' && next != '`' {
          StepKept(next, options[i + 2..], current);
          word := word + [c];
        } else {
          if quote == Double {
            StepDoubleBackslash(next, options[i + 2..], current);
          } else {
            StepBareBackslash(next, options[i + 2..], current);
          }
          i := i + 1;
          word := word + [next];
        }
        started := true;
      } else if quote != Bare {
        if quote == Single {
          StepSingle(c, tail, current);
        } else {
          StepDouble(c, tail, current);
        }
        if c == (if quote == Single then '\'' else '"') {
          quote := Bare;
        } else {
          word := word + [c];
        }
      } else {
        StepBare(c, tail, current);
        if c == '\'' || c == '"' {
          quote := if c == '\'' then Single else Double;
          started := true;
        } else if c == ' ' || c == '\t' {
          ThenTwice(words, Flushed(current), Scan(tail, Bare, None));
          assert words + [] == words;
          if started {
            words := words + [word];
            word := "";
            started := false;
          }
        } else {
          word := word + [c];
          started := true;
        }
      }
      i := i + 1;
    }
    EndOfText(options[i..], quote, if started then Some(word) else None);
    ThenTwice(words, Flushed(if started then Some(word) else None), None);
    assert words + [] == words;
    if started {
      words := words + [word];
    }
    r := if quote == Bare then Some(words) else None;
  }

  // ----- single steps -----

  lemma GrownTwice(word: Option<string>, a: string, b: string)
    ensures Grown(Grown(word, a), b) == Grown(word, a + b)
    ensures word.Some? ==> Grown(word, "") == word
  {
    var before := if word.Some? then word.value else "";
    Assoc(before, a, b);
    assert before + "" == before;
  }

  lemma StepSingle(c: char, tail: string, word: Option<string>)
    ensures Scan([c] + tail, Single, word) ==
            if c == '\'' then Scan(tail, Bare, word) else Scan(tail, Single, Grown(word, [c]))
  {
    assert ([c] + tail)[1..] == tail;
  }

  lemma StepDouble(c: char, tail: string, word: Option<string>)
    requires c != '\\'
    ensures Scan([c] + tail, Double, word) ==
            if c == '"' then Scan(tail, Bare, word) else Scan(tail, Double, Grown(word, [c]))
  {
    assert ([c] + tail)[1..] == tail;
  }

  lemma LoneBackslash(s: string, quote: Quote, word: Option<string>)
    requires s == ['\\'] && quote != Single
    ensures Scan(s, quote, word) == None
  {
  }

  lemma EndOfText(s: string, quote: Quote, word: Option<string>)
    requires s == ""
    ensures Scan(s, quote, word) == if quote == Bare then Some(Flushed(word)) else None
  {
  }

  /** Inside double quotes a backslash before an ordinary character stays, and that character is read next. */
  lemma StepKept(c: char, tail: string, word: Option<string>)
    requires !IsSpecial(c)
    ensures Scan(['\\', c] + tail, Double, word) == Scan([c] + tail, Double, Grown(word, ['\\']))
  {
    assert (['\\', c] + tail)[1..] == [c] + tail;
  }

  lemma StepDoubleBackslash(c: char, tail: string, word: Option<string>)
    ensures Scan(['\\', c] + tail, Double, word) ==
            Scan(tail, Double, Grown(word, if IsSpecial(c) then [c] else ['\\', c]))
  {
    var s := ['\\', c] + tail;
    assert s[2..] == tail && s[1..] == [c] + tail;
    if !IsSpecial(c) {
      assert ['\\'] + [c] == ['\\', c];
      StepDouble(c, tail, Grown(word, ['\\']));
      GrownTwice(word, ['\\'], [c]);
    }
  }

  lemma StepBareBackslash(c: char, tail: string, word: Option<string>)
    ensures Scan(['\\', c] + tail, Bare, word) == Scan(tail, Bare, Grown(word, [c]))
  {
    assert (['\\', c] + tail)[2..] == tail;
  }

  lemma StepBare(c: char, tail: string, word: Option<string>)
    requires c != '\\'
    ensures Scan([c] + tail, Bare, word) ==
            if c == '\'' then Scan(tail, Single, Grown(word, ""))
            else if c == '"' then Scan(tail, Double, Grown(word, ""))
            else if IsSpace(c) then Then(Flushed(word), Scan(tail, Bare, None))
            else Scan(tail, Bare, Grown(word, [c]))
  {
    assert ([c] + tail)[1..] == tail;
  }

  /** A backslash outside single quotes is never the last character of a text that splits. */
  lemma BackslashContinues(s: string, quote: Quote, word: Option<string>)
    requires s != [] && s[0] == '\\' && quote != Single && Scan(s, quote, word).Some?
    ensures |s| >= 2 && s == ['\\', s[1]] + s[2..]
  {
  }

  // ----- every text of the grammar is split as the grammar says -----

  lemma {:induction false} ScanSingle(body: string, tail: string, word: Option<string>)
    requires '\'' !in body && word.Some?
    ensures Scan(body + ("'" + tail), Single, word) == Scan(tail, Bare, Grown(word, body))
  {
    hide Scan;
    var s := body + ("'" + tail);
    if body == [] {
      assert s == ['\''] + tail;
      StepSingle('\'', tail, word);
      GrownTwice(word, "", "");
    } else {
      assert s == [body[0]] + (body[1..] + ("'" + tail));
      StepSingle(body[0], body[1..] + ("'" + tail), word);
      GrownTwice(word, [body[0]], body[1..]);
      assert [body[0]] + body[1..] == body;
      ScanSingle(body[1..], tail, Grown(word, [body[0]]));
    }
  }

  lemma StepPart(p: Part, tail: string, word: Option<string>)
    requires PartOk(p)
    ensures Scan(PartText(p) + tail, Double, word) == Scan(tail, Double, Grown(word, PartValue(p)))
  {
    hide Scan;
    if p.Char? {
      StepDouble(p.c, tail, word);
    } else {
      StepDoubleBackslash(p.c, tail, word);
    }
  }

  lemma {:induction false} ScanDouble(parts: seq<Part>, tail: string, word: Option<string>)
    requires (forall p :: p in parts ==> PartOk(p)) && word.Some?
    ensures Scan(PartsText(parts) + ("\"" + tail), Double, word) == Scan(tail, Bare, Grown(word, PartsValue(parts)))
  {
    hide Scan;
    if parts == [] {
      assert PartsText(parts) + ("\"" + tail) == ['"'] + tail;
      StepDouble('"', tail, word);
      GrownTwice(word, "", "");
    } else {
      var p := parts[0];
      Assoc(PartText(p), PartsText(parts[1..]), "\"" + tail);
      StepPart(p, PartsText(parts[1..]) + ("\"" + tail), word);
      ScanDouble(parts[1..], tail, Grown(word, PartValue(p)));
      GrownTwice(word, PartValue(p), PartsValue(parts[1..]));
    }
  }

  lemma ScanItem(item: Item, tail: string, word: Option<string>)
    requires ItemOk(item)
    ensures Scan(ItemText(item) + tail, Bare, word) ==
            if item.Space? then Then(Flushed(word), Scan(tail, Bare, None))
            else Scan(tail, Bare, Grown(word, ItemValue(item)))
  {
    hide Scan, PartsText, PartsValue;
    match item
    case SingleQuoted(body) =>
      Assoc("'", body + "'", tail);
      Assoc(body, "'", tail);
      StepBare('\'', body + ("'" + tail), word);
      ScanSingle(body, tail, Grown(word, ""));
      GrownTwice(word, "", body);
      assert "" + body == body;
    case DoubleQuoted(parts) =>
      Assoc("\"", PartsText(parts) + "\"", tail);
      Assoc(PartsText(parts), "\"", tail);
      StepBare('"', PartsText(parts) + ("\"" + tail), word);
      ScanDouble(parts, tail, Grown(word, ""));
      GrownTwice(word, "", PartsValue(parts));
      assert "" + PartsValue(parts) == PartsValue(parts);
    case Escaped(c) =>
      StepBareBackslash(c, tail, word);
    case Space(c) =>
      StepBare(c, tail, word);
    case Plain(c) =>
      StepBare(c, tail, word);
  }

  lemma {:induction false} ItemsScan(items: seq<Item>, word: Option<string>)
    requires ItemsOk(items)
    ensures Scan(ItemsText(items), Bare, word) == Some(Words(items, word))
  {
    if items != [] {
      ScanItem(items[0], ItemsText(items[1..]), word);
      hide Scan;
      if items[0].Space? {
        ItemsScan(items[1..], None);
      } else {
        ItemsScan(items[1..], Grown(word, ItemValue(items[0])));
      }
    }
  }

  // ----- whatever is split is a text of the grammar -----

  /** The rest of a text, from inside the given quote: what is left of the quoted piece, then further pieces. */
  ghost predicate Explains(s: string, quote: Quote, word: Option<string>, words: seq<string>,
                           body: string, parts: seq<Part>, items: seq<Item>)
  {
    && ItemsOk(items) && '\'' !in body && (forall p :: p in parts ==> PartOk(p))
    && match quote
       case Bare => s == ItemsText(items) && words == Words(items, word)
       case Single => s == body + ("'" + ItemsText(items)) && words == Words(items, Grown(word, body))
       case Double => s == PartsText(parts) + ("\"" + ItemsText(items)) && words == Words(items, Grown(word, PartsValue(parts)))
  }

  lemma {:induction false} ScanExplained(s: string, quote: Quote, word: Option<string>)
    returns (body: string, parts: seq<Part>, items: seq<Item>)
    requires Scan(s, quote, word).Some? && (quote != Bare ==> word.Some?)
    ensures Explains(s, quote, word, Scan(s, quote, word).value, body, parts, items)
    decreases |s|
  {
    body, parts, items := [], [], [];
    if s != [] {
      match quote
      case Bare => items := BareExplained(s, word);
      case Single => body, items := SingleExplained(s, word);
      case Double => parts, items := DoubleExplained(s, word);
    }
  }

  lemma {:induction false} BareExplained(s: string, word: Option<string>) returns (items: seq<Item>)
    requires s != [] && Scan(s, Bare, word).Some?
    ensures Explains(s, Bare, word, Scan(s, Bare, word).value, [], [], items)
    decreases |s|, 0
  {
    var body, parts, rest;
    var c, tail := s[0], s[1..];
    assert s == [c] + tail;
    if c == '\\' {
      BackslashContinues(s, Bare, word);
      StepBareBackslash(s[1], s[2..], word);
      hide Scan, ItemsText, Words, PartsText, PartsValue;
      body, parts, rest := ScanExplained(s[2..], Bare, Grown(word, [s[1]]));
      items := Prepended(Escaped(s[1]), rest, word);
    } else {
      StepBare(c, tail, word);
      hide Scan, ItemsText, Words, PartsText, PartsValue;
      if c == '\'' {
        body, parts, rest := ScanExplained(tail, Single, Grown(word, ""));
        QuotedExplained(word, SingleQuoted(body), "'", body, rest);
        items := Prepended(SingleQuoted(body), rest, word);
      } else if c == '"' {
        body, parts, rest := ScanExplained(tail, Double, Grown(word, ""));
        QuotedExplained(word, DoubleQuoted(parts), "\"", PartsText(parts), rest);
        items := Prepended(DoubleQuoted(parts), rest, word);
      } else if IsSpace(c) {
        body, parts, rest := ScanExplained(tail, Bare, None);
        items := Prepended(Space(c), rest, word);
      } else {
        body, parts, rest := ScanExplained(tail, Bare, Grown(word, [c]));
        items := Prepended(Plain(c), rest, word);
      }
    }
  }

  lemma Prepended(first: Item, rest: seq<Item>, word: Option<string>) returns (items: seq<Item>)
    requires ItemOk(first) && ItemsOk(rest)
    ensures ItemsOk(items) && ItemsText(items) == ItemText(first) + ItemsText(rest)
    ensures Words(items, word) ==
            if first.Space? then Flushed(word) + Words(rest, None) else Words(rest, Grown(word, ItemValue(first)))
  {
    items := [first] + rest;
    assert items[1..] == rest;
  }

  lemma QuotedExplained(word: Option<string>, item: Item, mark: string, inside: string, rest: seq<Item>)
    requires (item.SingleQuoted? && inside == item.body && mark == "'") ||
             (item.DoubleQuoted? && inside == PartsText(item.parts) && mark == "\"")
    ensures mark + (inside + (mark + ItemsText(rest))) == ItemText(item) + ItemsText(rest)
    ensures Grown(Grown(word, ""), ItemValue(item)) == Grown(word, ItemValue(item))
  {
    hide PartsText, PartsValue, ItemsText;
    Assoc(mark, inside + mark, ItemsText(rest));
    Assoc(inside, mark, ItemsText(rest));
    GrownTwice(word, "", ItemValue(item));
    assert "" + ItemValue(item) == ItemValue(item);
  }

  lemma {:induction false} SingleExplained(s: string, word: Option<string>) returns (body: string, items: seq<Item>)
    requires s != [] && Scan(s, Single, word).Some? && word.Some?
    ensures Explains(s, Single, word, Scan(s, Single, word).value, body, [], items)
    decreases |s|, 0
  {
    hide Scan;
    var parts;
    assert s == [s[0]] + s[1..];
    StepSingle(s[0], s[1..], word);
    if s[0] == '\'' {
      body, parts, items := ScanExplained(s[1..], Bare, word);
      body := "";
      GrownTwice(word, "", "");
    } else {
      body, parts, items := ScanExplained(s[1..], Single, Grown(word, [s[0]]));
      GrownTwice(word, [s[0]], body);
      Assoc([s[0]], body, "'" + ItemsText(items));
      body := [s[0]] + body;
    }
  }

  lemma {:induction false} DoubleExplained(s: string, word: Option<string>) returns (parts: seq<Part>, items: seq<Item>)
    requires s != [] && Scan(s, Double, word).Some? && word.Some?
    ensures Explains(s, Double, word, Scan(s, Double, word).value, [], parts, items)
    decreases |s|, 0
  {
    var body, rest, first, tail;
    if s[0] == '"' {
      assert s == [s[0]] + s[1..];
      StepDouble(s[0], s[1..], word);
      hide Scan;
      body, rest, items := ScanExplained(s[1..], Bare, word);
      parts := [];
      GrownTwice(word, "", "");
    } else {
      first, tail := FirstPart(s, word);
      hide Scan;
      StepPart(first, tail, word);
      body, rest, items := ScanExplained(tail, Double, Grown(word, PartValue(first)));
      parts := [first] + rest;
      assert parts[1..] == rest;
      GrownTwice(word, PartValue(first), PartsValue(rest));
      Assoc(PartText(first), PartsText(rest), "\"" + ItemsText(items));
    }
  }

  lemma FirstPart(s: string, word: Option<string>) returns (first: Part, tail: string)
    requires s != [] && s[0] != '"' && Scan(s, Double, word).Some?
    ensures PartOk(first) && s == PartText(first) + tail
  {
    if s[0] == '\\' {
      BackslashContinues(s, Double, word);
      first, tail := if IsSpecial(s[1]) then Quoted(s[1]) else Kept(s[1]), s[2..];
    } else {
      first, tail := Char(s[0]), s[1..];
    }
  }

  /** Splitting yields `words` exactly when the grammar derives the text with those words. */
  lemma SplitIffGrammar(s: string, words: seq<string>)
    ensures Scan(s, Bare, None) == Some(words) <==>
            exists items :: ItemsOk(items) && ItemsText(items) == s && Words(items, None) == words
  {
    hide Scan;
    if Scan(s, Bare, None) == Some(words) {
      var body, parts, items := ScanExplained(s, Bare, None);
    }
    if items :| ItemsOk(items) && ItemsText(items) == s && Words(items, None) == words {
      ItemsScan(items, None);
    }
  }

  // ----- quoting and splitting -----

  /** Single quotes around the word, with each single quote of it closed, escaped and reopened. */
  function ShellQuoted(word: string): string { "'" + (Requoted(word) + "'") }

  function Requoted(word: string): string {
    if word == [] then ""
    else (if word[0] == '\'' then "'\\''" else [word[0]]) + Requoted(word[1..])
  }

  /** The words, quoted and separated by single blanks. */
  function CommandLine(words: seq<string>): string {
    if words == [] then ""
    else if |words| == 1 then ShellQuoted(words[0])
    else ShellQuoted(words[0]) + (" " + CommandLine(words[1..]))
  }

  lemma {:induction false} QuotedScan(word: string, run: string, tail: string, sofar: Option<string>)
    requires '\'' !in run
    ensures Scan("'" + (run + (Requoted(word) + ("'" + tail))), Bare, sofar) == Scan(tail, Bare, Grown(sofar, run + word))
  {
    hide Scan, Requoted;
    if word == [] {
      EndOfWord(run, tail);
      ScanItem(SingleQuoted(run), tail, sofar);
      assert run + word == run;
    } else if word[0] == '\'' {
      var again := "'" + ("" + (Requoted(word[1..]) + ("'" + tail)));
      QuoteInside(word, run, tail);
      ScanItem(SingleQuoted(run), ItemText(Escaped('\'')) + again, sofar);
      ScanItem(Escaped('\''), again, Grown(sofar, run));
      QuotedScan(word[1..], "", tail, Grown(Grown(sofar, run), "'"));
      GrownTwice(Grown(sofar, run), "'", "" + word[1..]);
      GrownTwice(sofar, run, "'" + ("" + word[1..]));
      assert run + ("'" + ("" + word[1..])) == run + word;
    } else {
      var longer := run + [word[0]];
      PlainInside(word, run, tail);
      QuotedScan(word[1..], longer, tail, sofar);
      assert longer + word[1..] == run + word;
    }
  }

  lemma EndOfWord(run: string, tail: string)
    ensures "'" + (run + (Requoted("") + ("'" + tail))) == ItemText(SingleQuoted(run)) + tail
  {
  }

  lemma QuoteInside(word: string, run: string, tail: string)
    requires word != [] && word[0] == '\''
    ensures "'" + (run + (Requoted(word) + ("'" + tail))) ==
            ItemText(SingleQuoted(run)) + (ItemText(Escaped('\'')) + ("'" + ("" + (Requoted(word[1..]) + ("'" + tail)))))
  {
    var inner, end := Requoted(word[1..]), "'" + tail;
    assert Requoted(word) == "'\\''" + inner;
    hide Requoted;
    Assoc("'\\''", inner, end);
    Closed(inner + end);
    assert "" + (inner + end) == inner + end;
    Reordered(run, ItemText(Escaped('\'')) + ("'" + (inner + end)));
  }

  lemma Closed(rest: string)
    ensures "'\\''" + rest == "'" + (ItemText(Escaped('\'')) + ("'" + rest))
  {
  }

  lemma Reordered(run: string, rest: string)
    ensures "'" + (run + ("'" + rest)) == ItemText(SingleQuoted(run)) + rest
  {
    Assoc(run, "'", rest);
    Assoc("'", run + "'", rest);
  }

  lemma PlainInside(word: string, run: string, tail: string)
    requires word != [] && word[0] != '\''
    ensures run + (Requoted(word) + ("'" + tail)) == (run + [word[0]]) + (Requoted(word[1..]) + ("'" + tail))
  {
    var rest := Requoted(word[1..]);
    assert Requoted(word) == [word[0]] + rest;
    hide Requoted;
    Assoc([word[0]], rest, "'" + tail);
    Assoc(run, [word[0]], rest + ("'" + tail));
  }

  /** Splitting undoes quoting, for any words over any characters. */
  lemma {:induction false} SplitUndoesQuoting(words: seq<string>)
    ensures Scan(CommandLine(words), Bare, None) == Some(words)
  {
    if words != [] {
      hide Scan;
      var word, empty: string := words[0], "";
      var tail := if |words| == 1 then "" else " " + CommandLine(words[1..]);
      FirstWord(word, tail);
      assert CommandLine(words) == ShellQuoted(word) + tail;
      if |words| == 1 {
        ItemsScan([], Some(word));
        assert words == [word];
      } else {
        ScanItem(Space(' '), CommandLine(words[1..]), Some(word));
        SplitUndoesQuoting(words[1..]);
        assert words == [word] + words[1..];
      }
    }
  }

  lemma FirstWord(word: string, tail: string)
    ensures Scan(ShellQuoted(word) + tail, Bare, None) == Scan(tail, Bare, Some(word))
  {
    hide Scan, Requoted;
    QuotedScan(word, "", tail, None);
    assert ShellQuoted(word) + tail == "'" + ("" + (Requoted(word) + ("'" + tail)));
    assert "" + ("" + word) == word;
  }
}
