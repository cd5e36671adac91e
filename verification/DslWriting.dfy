/** Executable dependency files as code, strings and comments: stripping blanks exactly the comments. */
module DslWriting {
  import opened Text
  import opened ExecutableDsl

  // ----- pieces -----

  /** A character of a string, with or without a backslash before it. */
  datatype Unit = Plain(c: char) | Escaped(c: char)

  /** A line comment takes its line feed with it. */
  datatype Piece = CodeChar(c: char) | Quoted(mark: char, units: seq<Unit>) | BlockComment(body: string)
                 | LineComment(hash: bool, body: string)

  function UnitText(u: Unit): string { if u.Plain? then [u.c] else ['\\', u.c] }

  function UnitsText(us: seq<Unit>): string { if us == [] then "" else UnitText(us[0]) + UnitsText(us[1..]) }

  predicate UnitsOk(us: seq<Unit>, mark: char) {
    us != [] ==> (us[0].Plain? ==> us[0].c != mark && us[0].c != '\\') && UnitsOk(us[1..], mark)
  }

  /** The comment mark does not occur inside. */
  predicate NeverCloses(body: string) { forall i :: 0 <= i < |body| - 1 ==> !(body[i] == '*' && body[i + 1] == '/') }

  predicate PieceOk(p: Piece) {
    match p
    case CodeChar(c) => c != '"' && c != '\'' && c != '#'
    case Quoted(mark, units) => (mark == '"' || mark == '\'') && UnitsOk(units, mark)
    case BlockComment(body) => NeverCloses(body)
    case LineComment(_, body) => '\n' !in body
  }

  /** A slash of the code does not open a comment. */
  predicate Fits(p: Piece, rest: string) {
    p.CodeChar? && p.c == '/' ==> rest == "" || (rest[0] != '/' && rest[0] != '*')
  }

  function LineStart(hash: bool): string { if hash then "#" else "//" }

  function PieceText(p: Piece): string {
    match p
    case CodeChar(c) => [c]
    case Quoted(mark, units) => [mark] + (UnitsText(units) + [mark])
    case BlockComment(body) => "/*" + (body + "*/")
    case LineComment(hash, body) => LineStart(hash) + (body + "\n")
  }

  /** Line feeds stay, everything else becomes a blank. */
  function BlankOf(s: string): (r: string)
    ensures |r| == |s| && forall i :: 0 <= i < |s| ==> r[i] == if s[i] == '\n' then '\n' else ' '
  {
    if s == "" then "" else [if s[0] == '\n' then '\n' else ' '] + BlankOf(s[1..])
  }

  function Kept(p: Piece): string { if p.CodeChar? || p.Quoted? then PieceText(p) else BlankOf(PieceText(p)) }

  function TextOf(ps: seq<Piece>): string { if ps == [] then "" else PieceText(ps[0]) + TextOf(ps[1..]) }

  function KeptOf(ps: seq<Piece>): string { if ps == [] then "" else Kept(ps[0]) + KeptOf(ps[1..]) }

  /** A line comment without a line feed may end the text. */
  predicate LastOk(last: string) { last == "" || (("#" <= last || "//" <= last) && '\n' !in last) }

  predicate PiecesOk(ps: seq<Piece>, last: string) {
    ps != [] ==> PieceOk(ps[0]) && Fits(ps[0], TextOf(ps[1..]) + last) && PiecesOk(ps[1..], last)
  }

  ghost predicate Writes(content: string, ps: seq<Piece>, last: string) {
    content == TextOf(ps) + last && LastOk(last) && PiecesOk(ps, last)
  }

  // ----- pieces are stripped one by one -----

  /** The stripper writes `t` for what stands before `rest`, and goes on in code. */
  ghost predicate Passes(s: string, mode: Mode, t: string, rest: string) {
    Blanked(s, mode) == t + Blanked(rest, CODE) && EndMode(s, mode) == EndMode(rest, CODE)
  }

  lemma PassesCode(c: char, rest: string)
    requires PieceOk(CodeChar(c)) && Fits(CodeChar(c), rest)
    ensures Passes([c] + rest, CODE, [c], rest)
  {
    var s := [c] + rest;
    assert s[1..] == rest && !OpensBlock(s) && !OpensLine(s);
  }

  lemma StepPasses(s: string, mode: Mode, t: string, rest: string)
    requires s != "" && Passes(s[Step(s, mode).taken..], Step(s, mode).next, t, rest)
    ensures Passes(s, mode, Step(s, mode).piece + t, rest)
  {
    hide Step;
    Assoc(Step(s, mode).piece, t, Blanked(rest, CODE));
  }

  lemma QuoteCloses(mark: char, rest: string)
    requires IsMark(mark)
    ensures Passes([mark] + rest, Code(InQuotes(mark, false)), [mark], rest)
  {
    var s := [mark] + rest;
    assert s[1..] == rest && mark != '\\';
  }

  lemma UnitPasses(u: Unit, mark: char, s: string, t: string, rest: string)
    requires IsMark(mark) && (u.Plain? ==> u.c != mark && u.c != '\\')
    requires Passes(s, Code(InQuotes(mark, false)), t, rest)
    ensures Passes(UnitText(u) + s, Code(InQuotes(mark, false)), UnitText(u) + t, rest)
  {
    hide Blanked, EndMode;
    var whole := UnitText(u) + s;
    if u.Plain? {
      assert whole[1..] == s;
      hide Passes;
      StepPasses(whole, Code(InQuotes(mark, false)), t, rest);
    } else {
      var inner := [u.c] + s;
      assert whole[1..] == inner && inner[1..] == s;
      hide Passes;
      StepPasses(inner, Code(InQuotes(mark, true)), t, rest);
      StepPasses(whole, Code(InQuotes(mark, false)), [u.c] + t, rest);
      assert ['\\'] + ([u.c] + t) == ['\\', u.c] + t;
    }
  }

  lemma {:induction false} UnitsPass(us: seq<Unit>, mark: char, rest: string)
    requires IsMark(mark) && UnitsOk(us, mark)
    ensures Passes(UnitsText(us) + ([mark] + rest), Code(InQuotes(mark, false)), UnitsText(us) + [mark], rest)
  {
    hide Passes;
    if us == [] {
      QuoteCloses(mark, rest);
      assert UnitsText(us) + ([mark] + rest) == [mark] + rest && UnitsText(us) + [mark] == [mark];
    } else {
      UnitsPass(us[1..], mark, rest);
      UnitPasses(us[0], mark, UnitsText(us[1..]) + ([mark] + rest), UnitsText(us[1..]) + [mark], rest);
      Assoc(UnitText(us[0]), UnitsText(us[1..]), [mark] + rest);
      Assoc(UnitText(us[0]), UnitsText(us[1..]), [mark]);
    }
  }

  lemma PassesQuoted(mark: char, us: seq<Unit>, rest: string)
    requires IsMark(mark) && UnitsOk(us, mark)
    ensures Passes(PieceText(Quoted(mark, us)) + rest, CODE, PieceText(Quoted(mark, us)), rest)
  {
    hide Passes, UnitsText;
    var inside := UnitsText(us) + ([mark] + rest);
    var s := [mark] + inside;
    Assoc([mark], UnitsText(us) + [mark], rest);
    Assoc(UnitsText(us), [mark], rest);
    UnitsPass(us, mark, rest);
    assert s[1..] == inside;
    StepPasses(s, CODE, UnitsText(us) + [mark], rest);
  }

  lemma {:induction false} LinePasses(body: string, rest: string)
    requires '\n' !in body
    ensures Passes(body + ("\n" + rest), Line, BlankOf(body) + "\n", rest)
  {
    var s := body + ("\n" + rest);
    if body == "" {
      assert s == "\n" + rest && s[1..] == rest && BlankOf(body) + "\n" == "\n";
    } else {
      assert body == [body[0]] + body[1..] && body[0] in body && s[1..] == body[1..] + ("\n" + rest);
      LinePasses(body[1..], rest);
      hide Passes;
      StepPasses(s, Line, BlankOf(body[1..]) + "\n", rest);
      Assoc([' '], BlankOf(body[1..]), "\n");
    }
  }

  lemma BlankAppend(a: string, b: string)
    ensures BlankOf(a + b) == BlankOf(a) + BlankOf(b)
  {
    hide BlankOf;
  }

  lemma BlankMarks()
    ensures BlankOf("#") == " " && BlankOf("//") == "  " && BlankOf("/*") == "  " && BlankOf("*/") == "  " && BlankOf("\n") == "\n"
  {
    hide BlankOf;
  }

  lemma PassesLine(hash: bool, body: string, rest: string)
    requires '\n' !in body
    ensures Passes(PieceText(LineComment(hash, body)) + rest, CODE, BlankOf(PieceText(LineComment(hash, body))), rest)
  {
    hide Passes, BlankOf;
    var end := "\n" + rest;
    Assoc(body, "\n", rest);
    Assoc(LineStart(hash), body + "\n", rest);
    BlankMarks();
    BlankAppend(body, "\n");
    BlankAppend(LineStart(hash), body + "\n");
    LinePasses(body, rest);
    if hash {
      HashPasses(body + end, BlankOf(body) + "\n", rest);
    } else {
      SlashesPass(body + end, BlankOf(body) + "\n", rest);
    }
  }

  lemma HashPasses(inside: string, t: string, rest: string)
    requires Passes(inside, Line, t, rest)
    ensures Passes("#" + inside, CODE, " " + t, rest)
  {
    hide Passes;
    var s := "#" + inside;
    assert s[1..] == inside && OpensLine(s) && !OpensBlock(s);
    StepPasses(s, CODE, t, rest);
  }

  lemma SlashesPass(inside: string, t: string, rest: string)
    requires Passes(inside, Line, t, rest)
    ensures Passes("//" + inside, CODE, "  " + t, rest)
  {
    hide Passes;
    var second := "/" + inside;
    var s := "//" + inside;
    assert second[1..] == inside && s[1..] == second && OpensLine(s) && !OpensBlock(s);
    StepPasses(second, Line, t, rest);
    StepPasses(s, CODE, " " + t, rest);
    assert " " + (" " + t) == "  " + t;
  }

  lemma NoClose(body: string, rest: string)
    requires body != "" && NeverCloses(body)
    ensures NeverCloses(body[1..]) && !ClosesBlock(body + ("*/" + rest))
  {
    var s := body + ("*/" + rest);
    assert s[0] == body[0] && (|body| > 1 ==> s[1] == body[1]) && (|body| == 1 ==> s[1] == '*');
    assert |body| > 1 ==> !(body[0] == '*' && body[0 + 1] == '/');
    forall i | 0 <= i < |body[1..]| - 1 ensures !(body[1..][i] == '*' && body[1..][i + 1] == '/') {
      assert !(body[i + 1] == '*' && body[i + 1 + 1] == '/');
    }
  }

  lemma {:induction false} BlockPasses(body: string, rest: string)
    requires NeverCloses(body)
    ensures Passes(body + ("*/" + rest), Block, BlankOf(body) + "  ", rest)
  {
    var s := body + ("*/" + rest);
    if body == "" {
      assert s == "*/" + rest && s[2..] == rest && BlankOf(body) + "  " == "  ";
    } else {
      NoClose(body, rest);
      assert s[1..] == body[1..] + ("*/" + rest);
      BlockPasses(body[1..], rest);
      hide Passes, NeverCloses, ClosesBlock;
      StepPasses(s, Block, BlankOf(body[1..]) + "  ", rest);
      Assoc([Gap(body[0])], BlankOf(body[1..]), "  ");
    }
  }

  lemma PassesBlock(body: string, rest: string)
    requires NeverCloses(body)
    ensures Passes(PieceText(BlockComment(body)) + rest, CODE, BlankOf(PieceText(BlockComment(body))), rest)
  {
    hide Passes, NeverCloses, BlankOf;
    var s := "/*" + (body + ("*/" + rest));
    BlankMarks();
    BlankAppend(body, "*/");
    BlankAppend("/*", body + "*/");
    Assoc("/*", body + "*/", rest);
    Assoc(body, "*/", rest);
    assert s[2..] == body + ("*/" + rest) && OpensBlock(s);
    BlockPasses(body, rest);
    StepPasses(s, CODE, BlankOf(body) + "  ", rest);
  }

  lemma PassesPiece(p: Piece, rest: string)
    requires PieceOk(p) && Fits(p, rest)
    ensures Passes(PieceText(p) + rest, CODE, Kept(p), rest)
  {
    hide Passes, UnitsText, NeverCloses, UnitsOk;
    match p
    case CodeChar(c) => PassesCode(c, rest);
    case Quoted(mark, units) => PassesQuoted(mark, units, rest);
    case BlockComment(body) => PassesBlock(body, rest);
    case LineComment(hash, body) => PassesLine(hash, body, rest);
  }

  lemma {:induction false} LineBlanked(s: string)
    requires '\n' !in s
    ensures Blanked(s, Line) == BlankOf(s) && EndMode(s, Line) == Line
  {
    if s != "" {
      assert s == [s[0]] + s[1..] && s[0] in s;
      LineBlanked(s[1..]);
    }
  }

  lemma LastStripped(last: string)
    requires LastOk(last)
    ensures Blanked(last, CODE) == BlankOf(last) && Terminated(EndMode(last, CODE))
  {
    if last != "" {
      assert forall c :: c in last[1..] ==> c in last;
      LineBlanked(last[1..]);
      assert OpensLine(last) by { assert last[0] == '#' || last[..2] == "//"; }
      assert !OpensBlock(last) by { assert last[0] == '#' || last[..2] == "//"; }
      assert last[0] in last;
    }
  }

  lemma {:induction false} PiecesStripped(ps: seq<Piece>, last: string)
    requires PiecesOk(ps, last) && LastOk(last)
    ensures Stripped(TextOf(ps) + last) == Some(KeptOf(ps) + BlankOf(last))
  {
    if ps == [] {
      LastStripped(last);
      assert TextOf(ps) + last == last && KeptOf(ps) + BlankOf(last) == BlankOf(last);
    } else {
      hide PieceOk, Fits, PieceText, Kept, LastOk, Blanked, EndMode;
      var rest := TextOf(ps[1..]) + last;
      PiecesStripped(ps[1..], last);
      PassesPiece(ps[0], rest);
      Assoc(PieceText(ps[0]), TextOf(ps[1..]), last);
      Assoc(Kept(ps[0]), KeptOf(ps[1..]), BlankOf(last));
    }
  }

  // ----- what can be stripped consists of pieces -----

  lemma {:induction false} StringFound(s: string, mark: char) returns (us: seq<Unit>, rest: string)
    requires IsMark(mark) && Terminated(EndMode(s, Code(InQuotes(mark, false))))
    ensures s == UnitsText(us) + ([mark] + rest) && UnitsOk(us, mark) && |rest| < |s|
    decreases |s|
  {
    if s[0] == mark {
      us, rest := [], s[1..];
      assert s == [mark] + s[1..] && UnitsText([]) + s == s;
    } else {
      var u, tail := UnitFound(s, mark);
      var more;
      more, rest := StringFound(tail, mark);
      us := [u] + more;
      assert us[1..] == more;
      Assoc(UnitText(u), UnitsText(more), [mark] + rest);
    }
  }

  lemma UnitFound(s: string, mark: char) returns (u: Unit, tail: string)
    requires IsMark(mark) && Terminated(EndMode(s, Code(InQuotes(mark, false)))) && s != "" && s[0] != mark
    ensures s == UnitText(u) + tail && |tail| < |s| && (u.Plain? ==> u.c != mark && u.c != '\\')
    ensures Terminated(EndMode(tail, Code(InQuotes(mark, false))))
  {
    EndStep(s, Code(InQuotes(mark, false)));
    if s[0] != '\\' {
      u, tail := Plain(s[0]), s[1..];
    } else {
      NothingEnds(Code(InQuotes(mark, true)));
      u, tail := Escaped(s[1]), s[2..];
      EndStep(s[1..], Code(InQuotes(mark, true)));
      assert s[1..][1..] == s[2..];
    }
    hide EndMode;
    assert s == UnitText(u) + tail;
  }

  lemma {:induction false} BlockFound(s: string) returns (body: string, rest: string)
    requires EndMode(s, Block) != Block
    ensures s == body + ("*/" + rest) && NeverCloses(body)
    decreases |s|
  {
    if ClosesBlock(s) {
      body, rest := "", s[2..];
      assert s == "*/" + rest && "" + s == s;
    } else {
      var shorter;
      shorter, rest := BlockFound(s[1..]);
      hide EndMode;
      body := [s[0]] + shorter;
      assert s == [s[0]] + s[1..];
      forall i | 0 <= i < |body| - 1 ensures !(body[i] == '*' && body[i + 1] == '/') {
        if i == 0 {
          assert s[1] == shorter[0];
        } else {
          assert body[i] == shorter[i - 1] && body[i + 1] == shorter[i - 1 + 1];
        }
      }
    }
  }

  lemma {:induction false} LineFound(s: string) returns (body: string, rest: string)
    ensures s == body + rest && '\n' !in body && (rest != "" ==> rest[0] == '\n')
  {
    if s == "" || s[0] == '\n' {
      body, rest := "", s;
    } else {
      body, rest := LineFound(s[1..]);
      body := [s[0]] + body;
    }
  }

  lemma FirstPiece(s: string) returns (p: Piece, rest: string)
    requires s != "" && Terminated(EndMode(s, CODE)) && !LastOk(s)
    ensures s == PieceText(p) + rest && PieceOk(p) && Fits(p, rest) && |rest| < |s|
  {
    hide UnitsText, UnitsOk, NeverCloses, EndMode;
    assert s == [s[0]] + s[1..];
    if OpensBlock(s) {
      EndStep(s, CODE);
      var body;
      body, rest := BlockFound(s[2..]);
      p := BlockComment(body);
      assert s == "/*" + s[2..];
      Assoc(body, "*/", rest);
      Assoc("/*", body + "*/", rest);
    } else if OpensLine(s) {
      p, rest := FirstLine(s);
    } else if IsMark(s[0]) {
      EndStep(s, CODE);
      var us;
      us, rest := StringFound(s[1..], s[0]);
      p := Quoted(s[0], us);
      Assoc(UnitsText(us), [s[0]], rest);
      Assoc([s[0]], UnitsText(us) + [s[0]], rest);
    } else {
      p, rest := CodeChar(s[0]), s[1..];
    }
  }

  lemma EndStep(s: string, mode: Mode)
    requires s != ""
    ensures EndMode(s, mode) == EndMode(s[Step(s, mode).taken..], Step(s, mode).next)
  {
  }

  lemma NothingEnds(mode: Mode)
    ensures EndMode("", mode) == mode
  {
  }

  lemma FirstLine(s: string) returns (p: Piece, rest: string)
    requires OpensLine(s) && !LastOk(s)
    ensures s == PieceText(p) + rest && PieceOk(p) && Fits(p, rest) && |rest| < |s|
  {
    var hash := s[0] == '#';
    var start := LineStart(hash);
    assert start <= s by { if !hash { assert s[..2] == "//"; } }
    var inside := s[|start|..];
    SplitPrefix(s, start);
    var body, more := LineFound(inside);
    assert '\n' !in start + body;
    assert more == "" ==> s == start + body && start <= s;
    rest := more[1..];
    p := LineComment(hash, body);
    assert more == "\n" + rest;
    Assoc(body, "\n", rest);
    Assoc(start, body + "\n", rest);
  }

  lemma {:induction false} PiecesFound(s: string) returns (ps: seq<Piece>, last: string)
    requires Terminated(EndMode(s, CODE))
    ensures Writes(s, ps, last)
    decreases |s|
  {
    if LastOk(s) {
      ps, last := [], s;
      assert "" + s == s;
    } else {
      hide PieceOk, Fits, PieceText, LastOk, EndMode;
      var p, rest := FirstPiece(s);
      PassesPiece(p, rest);
      var more;
      more, last := PiecesFound(rest);
      ps := [p] + more;
      assert ps[1..] == more;
      Assoc(PieceText(p), TextOf(more), last);
    }
  }

  /** Stripping succeeds exactly on texts of code, closed strings and closed comments; code and strings stay, and
      comments turn into blanks and line feeds. */
  lemma StrippedIff(content: string, stripped: string)
    ensures Stripped(content) == Some(stripped) <==>
            exists ps, last :: Writes(content, ps, last) && stripped == KeptOf(ps) + BlankOf(last)
  {
    hide Blanked, EndMode, TextOf, KeptOf, PiecesOk, LastOk;
    if Stripped(content).Some? {
      var ps, last := PiecesFound(content);
      PiecesStripped(ps, last);
    }
    if ps, last :| Writes(content, ps, last) && stripped == KeptOf(ps) + BlankOf(last) {
      PiecesStripped(ps, last);
    }
  }
}
