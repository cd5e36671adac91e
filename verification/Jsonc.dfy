/** Normalising JSON with comments: comments go first, trailing commas second. */
module Jsonc {
  import opened Text

  /** `Str(true)` is inside a string right after a backslash. */
  datatype Mode = Code | Str(escaped: bool) | Line | Block

  predicate IsBreak(c: char) { c == '\n' || c == '\r' }

  predicate IsSpace(c: char) { c == ' ' || c == '\t' || IsBreak(c) }

  predicate IsCloser(c: char) { c == '}' || c == ']' }

  predicate OpensLine(s: string) { |s| >= 2 && s[0] == '/' && s[1] == '/' }

  predicate OpensBlock(s: string) { |s| >= 2 && s[0] == '/' && s[1] == '*' }

  predicate ClosesBlock(s: string) { |s| >= 2 && s[0] == '*' && s[1] == '/' }

  /** The string state after one character, for a scanner that knows nothing but strings. */
  function AfterChar(mode: Mode, c: char): Mode {
    match mode
    case Str(escaped) => if escaped then Str(false) else if c == '\\' then Str(true) else if c == '"' then Code else mode
    case _ => if c == '"' then Str(false) else mode
  }

  // ----- first pass: comments -----

  /** How many characters one step takes, what it writes, and the mode after it. */
  datatype Move = Move(taken: nat, piece: string, next: Mode)

  function Step(s: string, mode: Mode): (m: Move)
    requires s != ""
    ensures 1 <= m.taken <= |s|
  {
    var kept := if IsBreak(s[0]) then [s[0]] else "";
    match mode
    case Code =>
      if OpensLine(s) then Move(2, "", Line)
      else if OpensBlock(s) then Move(2, "", Block)
      else Move(1, [s[0]], AfterChar(Code, s[0]))
    case Str(_) => Move(1, [s[0]], AfterChar(mode, s[0]))
    case Line => Move(1, kept, if IsBreak(s[0]) then Code else Line)
    case Block => if ClosesBlock(s) then Move(2, "", Code) else Move(1, kept, Block)
  }

  function Uncommented(s: string, mode: Mode): string
    decreases |s|
  {
    if s == "" then "" else Step(s, mode).piece + Uncommented(s[Step(s, mode).taken..], Step(s, mode).next)
  }

  function EndMode(s: string, mode: Mode): Mode
    decreases |s|
  {
    if s == "" then mode else EndMode(s[Step(s, mode).taken..], Step(s, mode).next)
  }

  /** An open string or block comment is an error; a line comment may end the text. */
  predicate Terminated(mode: Mode) { mode == Code || mode == Line }

  // ----- second pass: trailing commas -----

  function SkipSpace(s: string): string {
    if s != "" && IsSpace(s[0]) then SkipSpace(s[1..]) else s
  }

  lemma SkipOne(c: char, rest: string)
    requires IsSpace(c)
    ensures SkipSpace([c] + rest) == SkipSpace(rest)
  {
    assert ([c] + rest)[1..] == rest;
  }

  predicate ClosesNext(s: string) { var rest := SkipSpace(s); rest != "" && IsCloser(rest[0]) }

  predicate Dropped(t: string, mode: Mode) { mode == Code && t != "" && t[0] == ',' && ClosesNext(t[1..]) }

  /** `mode` is Code or inside a string. */
  function Trimmed(t: string, mode: Mode): string
    decreases |t|
  {
    if t == "" then ""
    else (if Dropped(t, mode) then "" else [t[0]]) + Trimmed(t[1..], AfterChar(mode, t[0]))
  }

  function Normalized(content: string): Option<string> {
    if Terminated(EndMode(content, Code)) then Some(Trimmed(Uncommented(content, Code), Code)) else None
  }

  // ----- the two loops -----

  /** What is left to do once `output` stands for the first `index` characters. */
  ghost predicate Halfway(content: string, output: string, index: nat, mode: Mode) {
    && index <= |content|
    && Uncommented(content, Code) == output + Uncommented(content[index..], mode)
    && EndMode(content, Code) == EndMode(content[index..], mode)
  }

  lemma Advance(content: string, output: string, index: nat, mode: Mode)
    requires Halfway(content, output, index, mode) && index < |content|
    ensures var m := Step(content[index..], mode); Halfway(content, output + m.piece, index + m.taken, m.next)
  {
    hide Step;
    var m := Step(content[index..], mode);
    assert content[index..][m.taken..] == content[index + m.taken..];
    Assoc(output, m.piece, Uncommented(content[index + m.taken..], m.next));
  }

  lemma StartOf(content: string)
    ensures Halfway(content, "", 0, Code)
  {
    assert content[0..] == content;
    assert "" + Uncommented(content, Code) == Uncommented(content, Code);
  }

  lemma EndOf(content: string, output: string, mode: Mode)
    requires Halfway(content, output, |content|, mode)
    ensures Uncommented(content, Code) == output && EndMode(content, Code) == mode
  {
    assert content[|content|..] == "";
    assert output + "" == output;
  }

  method RemoveComments(content: string) returns (r: Option<string>)
    ensures r == if Terminated(EndMode(content, Code)) then Some(Uncommented(content, Code)) else None
  {
    hide Halfway, Uncommented, EndMode;
    var output: string, inString, escaped := "", false, false;
    var index := 0;
    ghost var mode := Code;
    StartOf(content);
    while index < |content|
      invariant 0 <= index <= |content| && Halfway(content, output, index, mode)
      invariant mode == if inString then Str(escaped) else if mode == Line then Line else Code
      invariant mode == Line ==> index == |content|
      invariant escaped ==> inString
    {
      var current := content[index];
      Advance(content, output, index, mode);
      assert output + [] == output;
      ghost var move := Step(content[index..], mode);
      if inString {
        output := output + [current];
        if escaped {
          escaped := false;
        } else if current == '\\' {
          escaped := true;
        } else if current == '"' {
          inString := false;
        }
      } else if current == '"' {
        inString := true;
        output := output + [current];
      } else if current == '/' && index + 1 < |content| && content[index + 1] == '/' {
        output, index, mode := SkipLine(content, output, index + 2);
        continue;
      } else if current == '/' && index + 1 < |content| && content[index + 1] == '*' {
        var terminated;
        output, index, terminated := SkipBlock(content, output, index + 2);
        if !terminated {
          return None;
        }
        mode := Code;
        continue;
      } else {
        output := output + [current];
      }
      mode := move.next;
      index := index + 1;
    }
    EndOf(content, output, mode);
    r := if inString then None else Some(output);
  }

  /** The rest of a line comment, with the line break that ends it. */
  method SkipLine(content: string, before: string, from: nat) returns (output: string, index: nat, ghost mode: Mode)
    requires Halfway(content, before, from, Line)
    ensures from <= index <= |content| && Halfway(content, output, index, mode)
    ensures mode == Code || (mode == Line && index == |content|)
  {
    hide Uncommented, EndMode;
    output, index, mode := before, from, Line;
    while index < |content| && content[index] != '\n' && content[index] != '\r'
      invariant from <= index <= |content| && Halfway(content, output, index, Line)
    {
      Advance(content, output, index, Line);
      assert output + "" == output;
      index := index + 1;
    }
    if index < |content| {
      Advance(content, output, index, Line);
      output := output + [content[index]];
      index := index + 1;
      mode := Code;
    }
  }

  /** The rest of a block comment; its line breaks stay. */
  method SkipBlock(content: string, before: string, from: nat) returns (output: string, index: nat, terminated: bool)
    requires Halfway(content, before, from, Block)
    ensures from <= index <= |content|
    ensures terminated ==> Halfway(content, output, index, Code)
    ensures !terminated ==> EndMode(content, Code) == Block
  {
    hide Uncommented, EndMode;
    output, index := before, from;
    while index < |content|
      invariant from <= index <= |content| && Halfway(content, output, index, Block)
    {
      Advance(content, output, index, Block);
      assert output + "" == output;
      if content[index] == '*' && index + 1 < |content| && content[index + 1] == '/' {
        index := index + 2;
        terminated := true;
        return;
      }
      if content[index] == '\n' || content[index] == '\r' {
        output := output + [content[index]];
      }
      index := index + 1;
    }
    EndOf(content, output, Block);
    terminated := false;
  }

  method RemoveTrailingCommas(t: string) returns (result: string)
    ensures result == Trimmed(t, Code)
  {
    result := "";
    var inString, escaped := false, false;
    assert t[0..] == t && "" + Trimmed(t, Code) == Trimmed(t, Code);
    for index := 0 to |t|
      invariant escaped ==> inString
      invariant Trimmed(t, Code) == result + Trimmed(t[index..], if inString then Str(escaped) else Code)
    {
      var current := t[index];
      CommaStep(t, index, if inString then Str(escaped) else Code, result);
      hide Trimmed;
      if inString {
        result := result + [current];
        if escaped {
          escaped := false;
        } else if current == '\\' {
          escaped := true;
        } else if current == '"' {
          inString := false;
        }
        continue;
      }
      if current == '"' {
        inString := true;
        result := result + [current];
        continue;
      }
      if current == ',' {
        var next := index + 1;
        while next < |t| && IsSpace(t[next])
          invariant index < next <= |t|
          invariant SkipSpace(t[index + 1..]) == SkipSpace(t[next..])
        {
          assert t[next..][1..] == t[next + 1..];
          next := next + 1;
        }
        if next < |t| && (t[next] == '}' || t[next] == ']') {
          continue;
        }
      }
      result := result + [current];
    }
    assert t[|t|..] == "" && result + "" == result;
  }

  lemma CommaStep(t: string, index: nat, mode: Mode, result: string)
    requires index < |t|
    ensures result + Trimmed(t[index..], mode) ==
            (result + if Dropped(t[index..], mode) then "" else [t[index]]) + Trimmed(t[index + 1..], AfterChar(mode, t[index]))
    ensures Dropped(t[index..], mode) == (mode == Code && t[index] == ',' && ClosesNext(t[index + 1..]))
    ensures result + "" == result
  {
    var piece := if Dropped(t[index..], mode) then "" else [t[index]];
    assert t[index..][1..] == t[index + 1..];
    Assoc(result, piece, Trimmed(t[index + 1..], AfterChar(mode, t[index])));
  }

  method NormalizeJSONC(content: string) returns (r: Option<string>)
    ensures r == Normalized(content)
  {
    var withoutComments := RemoveComments(content);
    if withoutComments.None? {
      return None;
    }
    var result := RemoveTrailingCommas(withoutComments.value);
    r := Some(result);
  }

  // ----- the first pass leaves no comment -----

  /** Outside strings no comment starts, for a scanner that knows only strings. */
  ghost predicate Quiet(t: string, mode: Mode)
    decreases |t|
  {
    t != "" ==> (mode == Code ==> !OpensLine(t) && !OpensBlock(t)) && Quiet(t[1..], AfterChar(mode, t[0]))
  }

  function ScanOf(mode: Mode): Mode { if mode.Str? then mode else Code }

  function AfterText(mode: Mode, t: string): Mode
    decreases |t|
  {
    if t == "" then mode else AfterText(AfterChar(mode, t[0]), t[1..])
  }

  /** A text that does not start with a comment and whose first character is a slash keeps what follows it. */
  lemma SlashNeighbour(s: string)
    requires |s| >= 2 && s[0] == '/' && !OpensLine(s) && !OpensBlock(s)
    ensures var t := Uncommented(s[1..], Code); t != "" && t[0] == s[1]
  {
    var rest := s[1..];
    assert !OpensLine(rest) && !OpensBlock(rest);
    assert Step(rest, Code).piece == [s[1]];
    hide Step;
  }

  lemma StepQuiet(s: string, mode: Mode)
    requires s != "" && Step(s, mode).piece != ""
    ensures var m := Step(s, mode);
            && |m.piece| == 1 && m.piece[0] == s[0] && m.taken == 1 && ScanOf(m.next) == AfterChar(ScanOf(mode), s[0])
    ensures var t := Uncommented(s, mode); ScanOf(mode) == Code ==> !OpensLine(t) && !OpensBlock(t)
  {
    if s[0] == '/' && mode == Code {
      if |s| >= 2 { SlashNeighbour(s); }
      assert s[1..] == "" ==> Uncommented(s[1..], Code) == "";
    }
  }

  lemma StepSilent(s: string, mode: Mode)
    requires s != "" && Step(s, mode).piece == ""
    ensures ScanOf(Step(s, mode).next) == ScanOf(mode)
  {
  }

  lemma {:induction false} UncommentedIsQuiet(s: string, mode: Mode)
    ensures Quiet(Uncommented(s, mode), ScanOf(mode))
    ensures AfterText(ScanOf(mode), Uncommented(s, mode)) == ScanOf(EndMode(s, mode))
    decreases |s|
  {
    if s != "" {
      var m := Step(s, mode);
      var t, rest := Uncommented(s, mode), Uncommented(s[m.taken..], m.next);
      UncommentedIsQuiet(s[m.taken..], m.next);
      assert t == m.piece + rest && EndMode(s, mode) == EndMode(s[m.taken..], m.next);
      if m.piece == "" {
        StepSilent(s, mode);
        assert t == rest;
      } else {
        StepQuiet(s, mode);
        hide Step, Uncommented, EndMode;
        assert t[1..] == rest;
      }
    }
  }

  lemma {:induction false} QuietIsFixed(t: string, mode: Mode)
    requires Quiet(t, mode) && (mode == Code || mode.Str?)
    ensures Uncommented(t, mode) == t && EndMode(t, mode) == AfterText(mode, t)
    decreases |t|
  {
    if t != "" {
      QuietIsFixed(t[1..], AfterChar(mode, t[0]));
    }
  }

  lemma {:induction false} QuietEverywhere(t: string, mode: Mode, i: nat)
    requires Quiet(t, mode) && i < |t| && AfterText(mode, t[..i]) == Code
    ensures !OpensLine(t[i..]) && !OpensBlock(t[i..])
    decreases i
  {
    if i == 0 {
      assert t[..0] == "" && t[0..] == t;
    } else {
      assert t[..i][1..] == t[1..][..i - 1] && t[1..][i - 1..] == t[i..];
      QuietEverywhere(t[1..], AfterChar(mode, t[0]), i - 1);
    }
  }

  /** The first pass leaves no comment opener outside strings, and changes nothing the second time. */
  lemma FirstPassSettles(content: string, i: nat)
    requires Terminated(EndMode(content, Code))
    ensures var t := Uncommented(content, Code);
            && Uncommented(t, Code) == t && Terminated(EndMode(t, Code))
            && (i < |t| && AfterText(Code, t[..i]) == Code ==> !OpensLine(t[i..]) && !OpensBlock(t[i..]))
  {
    var t := Uncommented(content, Code);
    UncommentedIsQuiet(content, Code);
    QuietIsFixed(t, Code);
    if i < |t| && AfterText(Code, t[..i]) == Code {
      QuietEverywhere(t, Code, i);
    }
  }
}
