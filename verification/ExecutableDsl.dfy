/** Blanking comments of executable dependency files, and finding the brace that closes a block. */
module ExecutableDsl {
  import opened Text

  // ----- quotes -----

  datatype Quote = Unquoted | InQuotes(mark: char, escaped: bool)

  predicate IsMark(c: char) { c == '"' || c == '\'' }

  /** The quote state after one character, for a scanner that knows nothing but quotes. */
  function AfterChar(q: Quote, c: char): Quote {
    match q
    case Unquoted => if IsMark(c) then InQuotes(c, false) else Unquoted
    case InQuotes(mark, escaped) =>
      if escaped then InQuotes(mark, false)
      else if c == '\\' then InQuotes(mark, true)
      else if c == mark then Unquoted
      else q
  }

  function AfterText(q: Quote, s: string): Quote
    decreases |s|
  {
    if s == "" then q else AfterText(AfterChar(q, s[0]), s[1..])
  }

  lemma {:induction false} AfterTextSnoc(q: Quote, s: string, n: nat)
    requires n < |s|
    ensures AfterText(q, s[..n + 1]) == AfterChar(AfterText(q, s[..n]), s[n])
    decreases n
  {
    if n == 0 {
      assert s[..1][1..] == "" && s[..0] == "";
    } else {
      AfterTextSnoc(AfterChar(q, s[0]), s[1..], n - 1);
      assert s[..n + 1][1..] == s[1..][..n] && s[..n][1..] == s[1..][..n - 1];
    }
  }

  // ----- blanking -----

  datatype Mode = Code(quote: Quote) | Line | Block

  const CODE := Code(Unquoted)

  predicate OpensBlock(s: string) { |s| >= 2 && s[0] == '/' && s[1] == '*' }

  predicate OpensLine(s: string) { s != "" && (s[0] == '#' || (|s| >= 2 && s[0] == '/' && s[1] == '/')) }

  predicate Opener(s: string) { OpensBlock(s) || OpensLine(s) }

  predicate ClosesBlock(s: string) { |s| >= 2 && s[0] == '*' && s[1] == '/' }

  /** A comment character leaves a blank, a line feed stays. */
  function Gap(c: char): char { if c == '\n' then c else ' ' }

  /** How many characters one step takes, what it writes for them, and the mode after it. */
  datatype Move = Move(taken: nat, piece: string, next: Mode)

  function Step(s: string, mode: Mode): (m: Move)
    requires s != ""
    ensures 1 <= m.taken <= |s| && |m.piece| == m.taken
  {
    match mode
    case Line => Move(1, [Gap(s[0])], if s[0] == '\n' then CODE else Line)
    case Block => if ClosesBlock(s) then Move(2, "  ", CODE) else Move(1, [Gap(s[0])], Block)
    case Code(quote) =>
      if quote == Unquoted && OpensBlock(s) then Move(2, "  ", Block)
      else if quote == Unquoted && OpensLine(s) then Move(1, " ", Line)
      else Move(1, [s[0]], Code(AfterChar(quote, s[0])))
  }

  /** The text with comments blanked. */
  function Blanked(s: string, mode: Mode): (r: string)
    ensures |r| == |s|
    decreases |s|
  {
    if s == "" then "" else Step(s, mode).piece + Blanked(s[Step(s, mode).taken..], Step(s, mode).next)
  }

  function EndMode(s: string, mode: Mode): Mode
    decreases |s|
  {
    if s == "" then mode else EndMode(s[Step(s, mode).taken..], Step(s, mode).next)
  }

  /** Open quotes and block comments at the end are errors; an open line comment is not. */
  predicate Terminated(mode: Mode) { mode == CODE || mode == Line }

  function Stripped(content: string): Option<string> {
    if Terminated(EndMode(content, CODE)) then Some(Blanked(content, CODE)) else None
  }

  /** What is left to do once `output` stands for the first `index` characters. */
  ghost predicate Halfway(content: string, output: string, index: nat, mode: Mode) {
    && index <= |content| && |output| == index
    && Blanked(content, CODE) == output + Blanked(content[index..], mode)
    && EndMode(content, CODE) == EndMode(content[index..], mode)
  }

  lemma Advance(content: string, output: string, index: nat, mode: Mode)
    requires Halfway(content, output, index, mode) && index < |content|
    ensures var m := Step(content[index..], mode); Halfway(content, output + m.piece, index + m.taken, m.next)
  {
    hide Step;
    var m := Step(content[index..], mode);
    assert content[index..][m.taken..] == content[index + m.taken..];
    Assoc(output, m.piece, Blanked(content[index + m.taken..], m.next));
  }

  lemma StartOf(content: string)
    ensures Halfway(content, "", 0, CODE)
  {
    assert content[0..] == content;
    assert "" + Blanked(content, CODE) == Blanked(content, CODE);
  }

  lemma EndOf(content: string, output: string, mode: Mode)
    requires Halfway(content, output, |content|, mode)
    ensures Blanked(content, CODE) == output && EndMode(content, CODE) == mode
  {
    assert content[|content|..] == "";
    assert output + "" == output;
  }

  method StripComments(content: string) returns (r: Option<string>)
    ensures r == Stripped(content)
  {
    hide Halfway, Blanked, EndMode;
    var output: string, quote, blockComment := "", Unquoted, false;
    var index := 0;
    ghost var mode := CODE;
    StartOf(content);
    while index < |content|
      invariant 0 <= index <= |content| && Halfway(content, output, index, mode)
      invariant if mode == Line then index == |content| && quote == Unquoted && !blockComment
                else mode == if blockComment then Block else Code(quote)
      invariant blockComment ==> quote == Unquoted
    {
      var current := content[index];
      var next := if index + 1 < |content| then content[index + 1] else '\0';
      ghost var move := Step(content[index..], mode);
      Advance(content, output, index, mode);
      mode := move.next;
      if blockComment {
        if current == '*' && next == '/' {
          blockComment := false;
          output := output + "  ";
          index := index + 1;
        } else if current == '\n' {
          output := output + ['\n'];
        } else {
          output := output + [' '];
        }
      } else if quote != Unquoted {
        output := output + [current];
        if quote.escaped {
          quote := quote.(escaped := false);
        } else if current == '\\' {
          quote := quote.(escaped := true);
        } else if current == quote.mark {
          quote := Unquoted;
        }
      } else if current == '"' || current == '\'' {
        quote := InQuotes(current, false);
        output := output + [current];
      } else if current == '/' && next == '*' {
        blockComment := true;
        output := output + "  ";
        index := index + 1;
      } else if (current == '/' && next == '/') || current == '#' {
        output, index, mode := BlankLine(content, output, index);
        continue;
      } else {
        output := output + [current];
      }
      index := index + 1;
    }
    EndOf(content, output, mode);
    r := if quote != Unquoted || blockComment then None else Some(output);
  }

  /** The inner loop: blanks up to the line feed, which stays, or up to the end. */
  method BlankLine(content: string, before: string, from: nat) returns (output: string, index: nat, ghost mode: Mode)
    requires from < |content| && OpensLine(content[from..]) && Halfway(content, before, from, CODE)
    ensures from < index <= |content| && Halfway(content, output, index, mode)
    ensures mode == CODE || (mode == Line && index == |content|)
  {
    hide Halfway, Blanked, EndMode;
    output, index, mode := before, from, CODE;
    while index < |content| && content[index] != '\n'
      invariant from <= index <= |content| && Halfway(content, output, index, mode)
      invariant mode == if index == from then CODE else Line
      decreases |content| - index
    {
      Advance(content, output, index, mode);
      output := output + [' '];
      index := index + 1;
      mode := Line;
    }
    if index < |content| {
      Advance(content, output, index, mode);
      output := output + ['\n'];
      index := index + 1;
      mode := CODE;
    }
  }

  // ----- what blanking keeps -----

  /** Every character is kept or becomes a blank, and line feeds stay where they are. */
  lemma {:induction false} BlankedKeepsPlaces(s: string, mode: Mode, i: nat)
    requires i < |s|
    ensures Blanked(s, mode)[i] == s[i] || (Blanked(s, mode)[i] == ' ' && s[i] != '\n')
    decreases |s|
  {
    var m := Step(s, mode);
    if i >= m.taken {
      BlankedKeepsPlaces(s[m.taken..], m.next, i - m.taken);
    }
  }

  /** No comment starts outside quotes, for a scanner that knows only quotes. */
  ghost predicate Quiet(t: string, q: Quote)
    decreases |t|
  {
    t != "" ==> (q == Unquoted ==> !Opener(t)) && Quiet(t[1..], AfterChar(q, t[0]))
  }

  function QuoteOf(mode: Mode): Quote { if mode.Code? then mode.quote else Unquoted }

  /** The quote state after the piece of one step. */
  function AfterPiece(q: Quote, piece: string): Quote { if |piece| == 1 then AfterChar(q, piece[0]) else q }

  lemma StepQuotes(s: string, mode: Mode)
    requires s != ""
    ensures var m := Step(s, mode);
            && AfterPiece(QuoteOf(mode), m.piece) == QuoteOf(m.next)
            && (|m.piece| == 1 || (m.piece == "  " && QuoteOf(mode) == Unquoted))
  {
    assert !IsMark(' ') && !IsMark('\n');
  }

  lemma StartsQuiet(s: string, mode: Mode)
    requires s != "" && QuoteOf(mode) == Unquoted
    ensures !Opener(Blanked(s, mode))
  {
    var m := Step(s, mode);
    if |s| >= 2 { BlankedKeepsPlaces(s, mode, 1); }
    hide Blanked;
    assert Blanked(s, mode)[0] == m.piece[0] by { FirstOf(s, mode); }
  }

  lemma FirstOf(s: string, mode: Mode)
    requires s != ""
    ensures Blanked(s, mode)[0] == Step(s, mode).piece[0]
  {
    hide Step;
  }

  lemma QuietPiece(piece: string, rest: string, q: Quote)
    requires |piece| == 1 || (piece == "  " && q == Unquoted)
    requires Quiet(rest, AfterPiece(q, piece)) && (q == Unquoted ==> !Opener(piece + rest))
    ensures Quiet(piece + rest, q) && AfterText(q, piece + rest) == AfterText(AfterPiece(q, piece), rest)
  {
    var t := piece + rest;
    if |piece| == 1 {
      assert t[1..] == rest;
    } else {
      assert t[1..] == " " + rest && t[1..][1..] == rest;
    }
  }

  lemma {:induction false} BlankedIsQuiet(s: string, mode: Mode)
    ensures Quiet(Blanked(s, mode), QuoteOf(mode))
    ensures AfterText(QuoteOf(mode), Blanked(s, mode)) == QuoteOf(EndMode(s, mode))
    decreases |s|
  {
    if s != "" {
      var m := Step(s, mode);
      BlankedIsQuiet(s[m.taken..], m.next);
      StepQuotes(s, mode);
      if QuoteOf(mode) == Unquoted { StartsQuiet(s, mode); }
      hide Step, Quiet, AfterText, Opener;
      QuietPiece(m.piece, Blanked(s[m.taken..], m.next), QuoteOf(mode));
    }
  }

  lemma {:induction false} QuietEverywhere(t: string, q: Quote, i: nat)
    requires Quiet(t, q) && i < |t| && AfterText(q, t[..i]) == Unquoted
    ensures !Opener(t[i..])
    decreases i
  {
    if i == 0 {
      assert t[..0] == "" && t[0..] == t;
    } else {
      assert t[..i][1..] == t[1..][..i - 1] && t[1..][i - 1..] == t[i..];
      QuietEverywhere(t[1..], AfterChar(q, t[0]), i - 1);
    }
  }

  lemma {:induction false} QuietIsFixed(t: string, q: Quote)
    requires Quiet(t, q)
    ensures Blanked(t, Code(q)) == t && EndMode(t, Code(q)) == Code(AfterText(q, t))
    decreases |t|
  {
    if t != "" {
      QuietIsFixed(t[1..], AfterChar(q, t[0]));
    }
  }

  /** The result has no comment left: wherever a quote-only scanner is outside quotes, none starts. */
  lemma StrippedHasNoComments(content: string, i: nat)
    requires Stripped(content).Some? && i < |content|
    ensures var out := Stripped(content).value; AfterText(Unquoted, out[..i]) == Unquoted ==> !Opener(out[i..])
  {
    var out := Stripped(content).value;
    BlankedIsQuiet(content, CODE);
    if AfterText(Unquoted, out[..i]) == Unquoted {
      QuietEverywhere(out, Unquoted, i);
    }
  }

  lemma StrippingTwice(content: string)
    requires Stripped(content).Some?
    ensures Stripped(Stripped(content).value) == Stripped(content)
  {
    var out := Stripped(content).value;
    BlankedIsQuiet(content, CODE);
    QuietIsFixed(out, Unquoted);
  }

  // ----- strings -----

  function Repeat(b: bool, n: nat): (r: seq<bool>)
    ensures |r| == n && forall i :: 0 <= i < n ==> r[i] == b
  {
    seq(n, _ => b)
  }

  /** Which characters belong to a string literal, by the scanner that knows comments. */
  function StringMask(s: string, mode: Mode): (r: seq<bool>)
    ensures |r| == |s|
    decreases |s|
  {
    if s == "" then []
    else
      var m := Step(s, mode);
      Repeat(StepInString(s, mode), m.taken) + StringMask(s[m.taken..], m.next)
  }

  predicate StepInString(s: string, mode: Mode)
    requires s != ""
  {
    mode.Code? && (mode.quote != Unquoted || IsMark(s[0]))
  }

  /** The same by a scanner that knows only quotes, as the brace and segment scanners do. */
  function QuoteMask(t: string, q: Quote): (r: seq<bool>)
    ensures |r| == |t|
    decreases |t|
  {
    if t == "" then [] else [q != Unquoted || IsMark(t[0])] + QuoteMask(t[1..], AfterChar(q, t[0]))
  }

  /** Blanking leaves exactly the original string literals for the quote-only scanners that follow. */
  lemma {:induction false} StringsKept(s: string, mode: Mode)
    ensures QuoteMask(Blanked(s, mode), QuoteOf(mode)) == StringMask(s, mode)
    ensures forall i :: 0 <= i < |s| && StringMask(s, mode)[i] ==> Blanked(s, mode)[i] == s[i]
    decreases |s|
  {
    if s != "" {
      var m := Step(s, mode);
      var rest := Blanked(s[m.taken..], m.next);
      StringsKept(s[m.taken..], m.next);
      StepQuotes(s, mode);
      StepMask(s, mode);
      hide Step, QuoteMask;
      MaskStep(m.piece, rest, QuoteOf(mode));
      assert StringMask(s, mode) == Repeat(StepInString(s, mode), m.taken) + StringMask(s[m.taken..], m.next);
      assert Blanked(s, mode) == m.piece + rest;
      hide StringMask, Blanked;
      forall i | 0 <= i < |s| && StringMask(s, mode)[i] ensures Blanked(s, mode)[i] == s[i] {
        if i >= m.taken {
          assert StringMask(s[m.taken..], m.next)[i - m.taken];
        }
      }
    }
  }

  lemma StepMask(s: string, mode: Mode)
    requires s != ""
    ensures var m := Step(s, mode);
            && (m.taken == 2 ==> !StepInString(s, mode))
            && (m.taken == 1 ==> StepInString(s, mode) == (QuoteOf(mode) != Unquoted || IsMark(m.piece[0])))
            && (StepInString(s, mode) ==> m.piece == [s[0]])
  {
    assert !IsMark(' ') && !IsMark('\n');
  }

  lemma MaskStep(piece: string, rest: string, q: Quote)
    requires |piece| == 1 || (piece == "  " && q == Unquoted)
    ensures |piece| == 1 ==> QuoteMask(piece + rest, q) == [q != Unquoted || IsMark(piece[0])] + QuoteMask(rest, AfterChar(q, piece[0]))
    ensures |piece| == 2 ==> QuoteMask(piece + rest, q) == Repeat(false, 2) + QuoteMask(rest, q)
  {
    var t := piece + rest;
    if |piece| == 1 {
      assert t[1..] == rest;
    } else {
      assert t[1..] == " " + rest && t[1..][1..] == rest;
    }
  }

  // ----- the matching brace -----

  /** Opening minus closing braces outside quotes. */
  function Balance(s: string, q: Quote): int
    decreases |s|
  {
    if s == "" then 0
    else (if q != Unquoted then 0 else if s[0] == '{' then 1 else if s[0] == '}' then -1 else 0)
         + Balance(s[1..], AfterChar(q, s[0]))
  }

  lemma {:induction false} BalanceSnoc(s: string, q: Quote, n: nat)
    requires n < |s|
    ensures Balance(s[..n + 1], q) == Balance(s[..n], q) +
            if AfterText(q, s[..n]) != Unquoted then 0 else if s[n] == '{' then 1 else if s[n] == '}' then -1 else 0
    decreases n
  {
    if n == 0 {
      assert s[..1][1..] == "" && s[..0] == "";
    } else {
      BalanceSnoc(s[1..], AfterChar(q, s[0]), n - 1);
      assert s[..n + 1][1..] == s[1..][..n] && s[..n][1..] == s[1..][..n - 1];
    }
  }

  /** The brace at `q` closes the block whose inside starts at `start`: here for the first time one more
      brace has been closed than opened. */
  ghost predicate ClosesAt(content: string, start: nat, q: nat) {
    && start <= q < |content| && content[q] == '}'
    && AfterText(Unquoted, content[start..][..q - start]) == Unquoted
    && Balance(content[start..][..q - start + 1], Unquoted) == -1
    && forall n :: 0 <= n <= q - start ==> Balance(content[start..][..n], Unquoted) >= 0
  }

  method MatchingBrace(content: string, start: nat) returns (r: Option<nat>)
    requires start <= |content|
    ensures r.Some? ==> ClosesAt(content, start, r.value)
    ensures r.None? ==> forall n :: 0 <= n <= |content| - start ==> Balance(content[start..][..n], Unquoted) >= 0
  {
    var depth, quote := 1, Unquoted;
    ghost var s := content[start..];
    for index := start to |content|
      invariant quote == AfterText(Unquoted, s[..index - start])
      invariant depth == 1 + Balance(s[..index - start], Unquoted)
      invariant forall n :: 0 <= n <= index - start ==> Balance(s[..n], Unquoted) >= 0
    {
      var current := content[index];
      BalanceSnoc(s, Unquoted, index - start);
      AfterTextSnoc(Unquoted, s, index - start);
      if quote != Unquoted {
        if quote.escaped {
          quote := quote.(escaped := false);
        } else if current == '\\' {
          quote := quote.(escaped := true);
        } else if current == quote.mark {
          quote := Unquoted;
        }
        continue;
      }
      if current == '"' || current == '\'' {
        quote := InQuotes(current, false);
        continue;
      }
      if current == '{' {
        depth := depth + 1;
      } else if current == '}' {
        depth := depth - 1;
        if depth == 0 {
          return Some(index);
        }
      }
    }
    r := None;
  }
}
