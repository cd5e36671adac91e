/** What normalisation keeps, and exactly when normalising again changes nothing. */
module JsoncKeeps {
  import opened Text
  import opened Jsonc

  // ----- line breaks -----

  function Breaks(s: string): string {
    if s == "" then "" else (if s[0] == '\n' || s[0] == '\r' then [s[0]] else "") + Breaks(s[1..])
  }

  lemma {:induction false} BreaksAppend(a: string, b: string)
    ensures Breaks(a + b) == Breaks(a) + Breaks(b)
  {
    if a == "" {
      assert a + b == b;
    } else {
      BreaksAppend(a[1..], b);
      assert (a + b)[1..] == a[1..] + b;
      Assoc(if IsBreak(a[0]) then [a[0]] else "", Breaks(a[1..]), Breaks(b));
    }
  }

  lemma StepBreaks(s: string, mode: Mode)
    requires s != ""
    ensures Breaks(Step(s, mode).piece) == Breaks(s[..Step(s, mode).taken])
  {
    var m := Step(s, mode);
    var taken := s[..m.taken];
    assert taken[0] == s[0];
    if m.taken == 2 {
      assert taken[1..] == [s[1]] && [s[1]][1..] == "";
    } else {
      assert taken == [s[0]] && [s[0]][1..] == "";
    }
  }

  lemma {:induction false} UncommentedBreaks(s: string, mode: Mode)
    ensures Breaks(Uncommented(s, mode)) == Breaks(s)
    decreases |s|
  {
    if s != "" {
      var m := Step(s, mode);
      UncommentedBreaks(s[m.taken..], m.next);
      StepBreaks(s, mode);
      assert Uncommented(s, mode) == m.piece + Uncommented(s[m.taken..], m.next);
      hide Step, Breaks, Uncommented;
      BreaksAppend(m.piece, Uncommented(s[m.taken..], m.next));
      BreaksAppend(s[..m.taken], s[m.taken..]);
      assert s == s[..m.taken] + s[m.taken..];
    }
  }

  lemma {:induction false} TrimmedBreaks(t: string, mode: Mode)
    ensures Breaks(Trimmed(t, mode)) == Breaks(t)
    decreases |t|
  {
    if t != "" {
      var rest := Trimmed(t[1..], AfterChar(mode, t[0]));
      TrimmedBreaks(t[1..], AfterChar(mode, t[0]));
      if !Dropped(t, mode) {
        assert ([t[0]] + rest)[1..] == rest;
      } else {
        assert "" + rest == rest;
      }
    }
  }

  // ----- strings -----

  /** The characters of all string literals with their quotes, comments being understood. */
  function StringText(s: string, mode: Mode): string
    decreases |s|
  {
    if s == "" then ""
    else
      var m := Step(s, mode);
      (if mode.Str? || (mode == Code && s[0] == '"') then m.piece else "") + StringText(s[m.taken..], m.next)
  }

  /** The same for a scanner that knows only strings, such as a JSON reader. */
  function QuotedText(t: string, mode: Mode): string
    decreases |t|
  {
    if t == "" then ""
    else (if mode.Str? || t[0] == '"' then [t[0]] else "") + QuotedText(t[1..], AfterChar(mode, t[0]))
  }

  lemma {:induction false} UncommentedStrings(s: string, mode: Mode)
    ensures QuotedText(Uncommented(s, mode), ScanOf(mode)) == StringText(s, mode)
    decreases |s|
  {
    if s != "" {
      var m := Step(s, mode);
      var rest := Uncommented(s[m.taken..], m.next);
      UncommentedStrings(s[m.taken..], m.next);
      assert Uncommented(s, mode) == m.piece + rest;
      hide Uncommented;
      if m.piece == "" {
        StepSilent(s, mode);
        assert m.piece + rest == rest;
      } else {
        PieceIsFirst(s, mode);
        QuotedStep(s[0], rest, ScanOf(mode));
      }
    }
  }

  lemma PieceIsFirst(s: string, mode: Mode)
    requires s != "" && Step(s, mode).piece != ""
    ensures var m := Step(s, mode); m.piece == [s[0]] && m.taken == 1 && ScanOf(m.next) == AfterChar(ScanOf(mode), s[0])
    ensures mode == Line || mode == Block ==> s[0] != '"'
  {
  }

  lemma QuotedStep(c: char, rest: string, mode: Mode)
    ensures QuotedText([c] + rest, mode) == (if mode.Str? || c == '"' then [c] else "") + QuotedText(rest, AfterChar(mode, c))
  {
    assert ([c] + rest)[1..] == rest;
  }

  lemma {:induction false} TrimmedStrings(t: string, mode: Mode)
    ensures QuotedText(Trimmed(t, mode), mode) == QuotedText(t, mode)
    decreases |t|
  {
    if t != "" {
      var rest := Trimmed(t[1..], AfterChar(mode, t[0]));
      TrimmedStrings(t[1..], AfterChar(mode, t[0]));
      if Dropped(t, mode) {
        assert "" + rest == rest;
        assert "" + QuotedText(t[1..], Code) == QuotedText(t[1..], Code);
      } else {
        QuotedStep(t[0], rest, mode);
      }
    }
  }

  // ----- the second pass -----

  /** The text without the commas outside strings. */
  function Commaless(t: string, mode: Mode): string
    decreases |t|
  {
    if t == "" then ""
    else (if mode == Code && t[0] == ',' then "" else [t[0]]) + Commaless(t[1..], AfterChar(mode, t[0]))
  }

  lemma {:induction false} TrimmedKeepsAllButCommas(t: string, mode: Mode)
    ensures Commaless(Trimmed(t, mode), mode) == Commaless(t, mode)
    decreases |t|
  {
    if t != "" {
      var rest := Trimmed(t[1..], AfterChar(mode, t[0]));
      TrimmedKeepsAllButCommas(t[1..], AfterChar(mode, t[0]));
      if Dropped(t, mode) {
        assert "" + rest == rest;
        assert "" + Commaless(t[1..], Code) == Commaless(t[1..], Code);
      } else {
        assert ([t[0]] + rest)[1..] == rest;
      }
    }
  }

  /** A slash that starts no comment starts none after trimming either: a dropped comma is not followed by one. */
  lemma SlashStaysAlone(t: string)
    requires t != "" && t[0] == '/' && !OpensLine(t) && !OpensBlock(t)
    ensures var u := Trimmed(t, Code); !OpensLine(u) && !OpensBlock(u)
  {
    var rest := t[1..];
    if rest != "" {
      if Dropped(rest, Code) {
        var after := rest[1..];
        assert after != "" && (IsSpace(after[0]) || IsCloser(after[0]));
        FirstKept(after);
        assert Trimmed(rest, Code) == "" + Trimmed(after, Code);
      } else {
        FirstKept(rest);
      }
    }
  }

  lemma FirstKept(t: string)
    requires t != "" && !Dropped(t, Code)
    ensures Trimmed(t, Code) != "" && Trimmed(t, Code)[0] == t[0]
  {
  }

  lemma {:induction false} TrimmedIsQuiet(t: string, mode: Mode)
    requires Quiet(t, mode)
    ensures Quiet(Trimmed(t, mode), mode) && AfterText(mode, Trimmed(t, mode)) == AfterText(mode, t)
    decreases |t|
  {
    if t != "" {
      var rest := Trimmed(t[1..], AfterChar(mode, t[0]));
      TrimmedIsQuiet(t[1..], AfterChar(mode, t[0]));
      if Dropped(t, mode) {
        assert "" + rest == rest;
      } else {
        if t[0] == '/' && mode == Code { SlashStaysAlone(t); }
        assert ([t[0]] + rest)[1..] == rest;
      }
    }
  }

  // ----- the whole -----

  /** The line breaks and the string literals of the result are those of the input, in order. */
  lemma NormalizedKeeps(content: string)
    requires Normalized(content).Some?
    ensures var r := Normalized(content).value;
            Breaks(r) == Breaks(content) && QuotedText(r, Code) == StringText(content, Code)
  {
    hide Uncommented, Trimmed, Breaks, QuotedText, StringText, EndMode;
    var t := Uncommented(content, Code);
    UncommentedBreaks(content, Code);
    TrimmedBreaks(t, Code);
    UncommentedStrings(content, Code);
    TrimmedStrings(t, Code);
  }

  /** A comma that the next trimming would drop: another comma and then a closing bracket follow it. */
  predicate CommaThenClose(s: string) {
    var x := SkipSpace(s);
    x != "" && x[0] == ',' && ClosesNext(x[1..])
  }

  /** Two commas in a row before a closing bracket, outside strings. */
  predicate DoubleTrailing(t: string, mode: Mode)
    decreases |t|
  {
    t != "" && ((mode == Code && t[0] == ',' && CommaThenClose(t[1..])) || DoubleTrailing(t[1..], AfterChar(mode, t[0])))
  }

  lemma SpaceKept(s: string)
    requires s != "" && IsSpace(s[0])
    ensures Trimmed(s, Code) == [s[0]] + Trimmed(s[1..], Code) && SkipSpace(Trimmed(s, Code)) == SkipSpace(Trimmed(s[1..], Code))
  {
    hide SkipSpace;
    SkipOne(s[0], Trimmed(s[1..], Code));
  }

  lemma {:induction false} ClosesAfterTrimming(s: string)
    ensures ClosesNext(Trimmed(s, Code)) <==> ClosesNext(s) || CommaThenClose(s)
    decreases |s|
  {
    if s != "" {
      if IsSpace(s[0]) {
        SpaceKept(s);
        ClosesAfterTrimming(s[1..]);
      } else if Dropped(s, Code) {
        ClosesAfterTrimming(s[1..]);
        assert Trimmed(s, Code) == "" + Trimmed(s[1..], Code) == Trimmed(s[1..], Code);
      } else {
        FirstKept(s);
      }
    }
  }

  lemma {:induction false} TrimmedShrinks(t: string, mode: Mode)
    ensures |Trimmed(t, mode)| <= |t|
    decreases |t|
  {
    if t != "" {
      TrimmedShrinks(t[1..], AfterChar(mode, t[0]));
    }
  }

  lemma FixedStep(c: char, rest: string, mode: Mode)
    ensures Trimmed([c] + rest, mode) == [c] + rest <==>
            !Dropped([c] + rest, mode) && Trimmed(rest, AfterChar(mode, c)) == rest
  {
    var t := [c] + rest;
    assert t[1..] == rest;
    TrimmedShrinks(rest, AfterChar(mode, c));
    if !Dropped(t, mode) && Trimmed(t, mode) == t {
      assert Trimmed(t, mode)[1..] == Trimmed(rest, AfterChar(mode, c));
    }
  }

  lemma {:induction false} TrimmedTwiceIff(t: string, mode: Mode)
    ensures Trimmed(Trimmed(t, mode), mode) == Trimmed(t, mode) <==> !DoubleTrailing(t, mode)
    decreases |t|
  {
    if t != "" {
      var next := AfterChar(mode, t[0]);
      var rest := Trimmed(t[1..], next);
      TrimmedTwiceIff(t[1..], next);
      if Dropped(t, mode) {
        assert "" + rest == rest;
      } else {
        FixedStep(t[0], rest, mode);
        assert ([t[0]] + rest)[1..] == rest;
        if mode == Code && t[0] == ',' { ClosesAfterTrimming(t[1..]); }
      }
    }
  }

  /** Normalising the result again changes nothing exactly when the text without comments has no two
      commas in a row before a closing bracket. */
  lemma NormalizedTwiceIff(content: string)
    requires Normalized(content).Some?
    ensures Normalized(Normalized(content).value) == Normalized(content) <==> !DoubleTrailing(Uncommented(content, Code), Code)
  {
    hide Trimmed, DoubleTrailing, Quiet;
    var t := Uncommented(content, Code);
    var r := Trimmed(t, Code);
    UncommentedIsQuiet(content, Code);
    TrimmedIsQuiet(t, Code);
    QuietIsFixed(r, Code);
    TrimmedTwiceIff(t, Code);
  }

  /** A plain character in front of a text. */
  lemma Plain(c: char, rest: string)
    requires c != '/' && c != '"'
    ensures Uncommented([c] + rest, Code) == [c] + Uncommented(rest, Code)
    ensures EndMode([c] + rest, Code) == EndMode(rest, Code)
    ensures Trimmed([c] + rest, Code) == (if c == ',' && ClosesNext(rest) then "" else [c]) + Trimmed(rest, Code)
    ensures !IsSpace(c) ==> ClosesNext([c] + rest) == IsCloser(c)
  {
    assert ([c] + rest)[1..] == rest;
  }

  /** A text the first pass leaves alone, what the second makes of it, and whether it starts with a bracket. */
  ghost predicate Reads(t: string, trimmed: string, closes: bool) {
    Uncommented(t, Code) == t && EndMode(t, Code) == Code && Trimmed(t, Code) == trimmed && ClosesNext(t) == closes
  }

  lemma Longer(c: char, t: string, trimmed: string, closes: bool)
    requires c != '/' && c != '"' && !IsSpace(c) && Reads(t, trimmed, closes)
    ensures Reads([c] + t, (if c == ',' && closes then "" else [c]) + trimmed, IsCloser(c))
  {
    hide Uncommented, EndMode, Trimmed, ClosesNext;
    Plain(c, t);
  }

  lemma NothingReads()
    ensures Reads("", "", false)
  {
  }

  /** Such a text: the second normalisation drops the comma the first one left. */
  lemma NotIdempotent()
    ensures Normalized("[1,,]") == Some("[1,]") && Normalized("[1,]") == Some("[1]")
  {
    NothingReads();
    ReadsGive("[1,,]", "[1,]");
    ReadsGive("[1,]", "[1]");
    hide Reads, Normalized;
    assert !IsSpace(']') && !IsSpace(',') && !IsSpace('1') && !IsSpace('[');
    Longer(']', "", "", false);
    Longer(',', [']'] + "", [']'] + "", true);
    Longer(',', [','] + ([']'] + ""), "" + ([']'] + ""), false);
    Longer('1', [','] + ([']'] + ""), "" + ([']'] + ""), false);
    Longer('1', [','] + ([','] + ([']'] + "")), [','] + ("" + ([']'] + "")), false);
    Longer('[', ['1'] + ([','] + ([']'] + "")), ['1'] + ("" + ([']'] + "")), false);
    Longer('[', ['1'] + ([','] + ([','] + ([']'] + ""))), ['1'] + ([','] + ("" + ([']'] + ""))), false);
    assert ['['] + (['1'] + ([','] + ([']'] + ""))) == "[1,]" == ['['] + (['1'] + ([','] + ("" + ([']'] + ""))));
    assert ['['] + (['1'] + ([','] + ([','] + ([']'] + "")))) == "[1,,]";
    assert ['['] + (['1'] + ("" + ([']'] + ""))) == "[1]";
  }

  lemma ReadsGive(t: string, trimmed: string)
    ensures Reads(t, trimmed, false) ==> Normalized(t) == Some(trimmed)
  {
  }
}
