/** Gaps of texts with line comments: white space, and comments that start with a mark. */
module Gaps {
  import opened Text

  // ----- gaps -----

  predicate IsBlank(c: char) { c == ' ' || c == '\t' || c == '\n' || c == '\r' }

  /** A comment with its line feed, and what follows. */
  predicate Remark(g: string, mark: char, body: string, rest: string) {
    |rest| < |g| && g == [mark] + (body + ("\n" + rest)) && '\n' !in body
  }

  /** White space and comments, each comment with its line feed. */
  ghost predicate IsGap(g: string, mark: char)
    decreases |g|
  {
    || g == ""
    || (IsBlank(g[0]) && IsGap(g[1..], mark))
    || exists body, rest :: Remark(g, mark, body, rest) && IsGap(rest, mark)
  }

  /** At the end of a file a comment needs no line feed. */
  ghost predicate IsLastGap(g: string, mark: char) {
    exists gap, tail :: g == gap + tail && IsGap(gap, mark) && (tail == "" || (tail[0] == mark && '\n' !in tail))
  }

  /** What a reader goes on with after skipping white space and comments. */
  function AfterGap(s: string, mark: char): (r: string)
    requires !IsBlank(mark)
    ensures |r| <= |s| && (r != "" ==> !IsBlank(r[0]) && r[0] != mark)
    decreases |s|
  {
    if s == "" then s
    else if IsBlank(s[0]) then AfterGap(s[1..], mark)
    else if s[0] == mark then AfterGap(AfterLine(s), mark)
    else s
  }

  lemma {:induction false} LineEnds(body: string, rest: string)
    requires '\n' !in body
    ensures AfterLine(body + ("\n" + rest)) == "\n" + rest
  {
    var s := body + ("\n" + rest);
    if body == "" {
      assert s == "\n" + rest;
    } else {
      assert body == [body[0]] + body[1..] && body[0] in body && s[1..] == body[1..] + ("\n" + rest);
      LineEnds(body[1..], rest);
    }
  }

  lemma {:induction false} LineNeverEnds(s: string)
    requires '\n' !in s
    ensures AfterLine(s) == ""
  {
    if s != "" {
      assert s == [s[0]] + s[1..] && s[0] in s;
      LineNeverEnds(s[1..]);
    }
  }

  lemma RemarkSkips(body: string, rest: string, mark: char)
    requires !IsBlank(mark) && '\n' !in body
    ensures AfterGap([mark] + (body + ("\n" + rest)), mark) == AfterGap(rest, mark)
  {
    var s := [mark] + (body + ("\n" + rest));
    MarkedLine(s, body, rest, mark);
    LineFeedSkips(rest, mark);
    hide AfterLine;
  }

  lemma MarkedLine(s: string, body: string, rest: string, mark: char)
    requires s == [mark] + (body + ("\n" + rest)) && '\n' !in body && !IsBlank(mark)
    ensures AfterLine(s) == "\n" + rest
  {
    LineEnds(body, rest);
    assert s[1..] == body + ("\n" + rest);
  }

  lemma LineFeedSkips(rest: string, mark: char)
    requires !IsBlank(mark)
    ensures AfterGap("\n" + rest, mark) == AfterGap(rest, mark)
  {
    assert ("\n" + rest)[1..] == rest;
  }

  lemma {:induction false} SkipsGap(g: string, s: string, mark: char)
    requires !IsBlank(mark)
    requires IsGap(g, mark)
    ensures AfterGap(g + s, mark) == AfterGap(s, mark)
    decreases |g|
  {
    if g == "" {
      assert g + s == s;
    } else if IsBlank(g[0]) && IsGap(g[1..], mark) {
      assert (g + s)[1..] == g[1..] + s;
      SkipsGap(g[1..], s, mark);
    } else {
      var body, rest :| Remark(g, mark, body, rest) && IsGap(rest, mark);
      SkipsGap(rest, s, mark);
      Assoc("\n", rest, s);
      Assoc(body, "\n" + rest, s);
      Assoc([mark], body + ("\n" + rest), s);
      RemarkSkips(body, rest + s, mark);
    }
  }

  lemma SkipsLastGap(g: string, mark: char)
    requires !IsBlank(mark)
    requires IsLastGap(g, mark)
    ensures AfterGap(g, mark) == ""
  {
    var gap, tail :| g == gap + tail && IsGap(gap, mark) && (tail == "" || (tail[0] == mark && '\n' !in tail));
    SkipsGap(gap, tail, mark);
    if tail != "" { LineNeverEnds(tail); }
  }

  lemma {:induction false} LineSplits(s: string) returns (body: string, rest: string)
    ensures s == body + rest && '\n' !in body && (rest != "" ==> rest[0] == '\n')
  {
    if s == "" || s[0] == '\n' {
      body, rest := "", s;
    } else {
      body, rest := LineSplits(s[1..]);
      body := [s[0]] + body;
    }
  }

  /** What the reader skips is a gap. */
  lemma {:induction false} GapFound(s: string, mark: char) returns (g: string)
    requires !IsBlank(mark)
    ensures s == g + AfterGap(s, mark) && (if AfterGap(s, mark) == "" then IsLastGap(g, mark) else IsGap(g, mark))
    decreases |s|
  {
    if s == "" {
      g := "";
      assert g == g + "";
    } else if IsBlank(s[0]) {
      var more := GapFound(s[1..], mark);
      g := [s[0]] + more;
      assert g[1..] == more && s == [s[0]] + s[1..];
      if AfterGap(s, mark) == "" { BlankMore(s[0], more, mark); }
    } else if s[0] == mark {
      g := RemarkFound(s, mark);
    } else {
      g := "";
    }
  }

  lemma BlankMore(c: char, g: string, mark: char)
    requires IsBlank(c) && IsLastGap(g, mark)
    ensures IsLastGap([c] + g, mark)
  {
    var gap, tail :| g == gap + tail && IsGap(gap, mark) && (tail == "" || (tail[0] == mark && '\n' !in tail));
    assert ([c] + gap)[1..] == gap;
    Assoc([c], gap, tail);
  }

  lemma RemarkGap(body: string, g: string, mark: char)
    requires '\n' !in body && IsGap(g, mark)
    ensures IsGap([mark] + (body + ("\n" + g)), mark)
  {
    var longer := [mark] + (body + ("\n" + g));
    assert |g| < |longer|;
    assert Remark(longer, mark, body, g);
    hide Remark;
  }

  lemma RemarkLast(body: string, g: string, mark: char)
    requires '\n' !in body && IsLastGap(g, mark)
    ensures IsLastGap([mark] + (body + ("\n" + g)), mark)
  {
    var gap, tail :| g == gap + tail && IsGap(gap, mark) && (tail == "" || (tail[0] == mark && '\n' !in tail));
    RemarkGap(body, gap, mark);
    hide IsGap;
    Assoc("\n", gap, tail);
    Assoc(body, "\n" + gap, tail);
    Assoc([mark], body + ("\n" + gap), tail);
  }

  lemma {:induction false} RemarkFound(s: string, mark: char) returns (g: string)
    requires !IsBlank(mark)
    requires s != "" && s[0] == mark
    ensures s == g + AfterGap(s, mark) && (if AfterGap(s, mark) == "" then IsLastGap(g, mark) else IsGap(g, mark))
    decreases |s|, 0
  {
    hide IsGap, IsLastGap;
    var body, rest := LineSplits(s[1..]);
    assert s == [mark] + s[1..];
    if rest == "" {
      g := s;
      assert body + "" == body;
      assert forall c :: c in s ==> c == mark || c in body;
      LoneRemark(s, mark);
      assert s + "" == s;
    } else {
      var after := rest[1..];
      assert rest == "\n" + after && s == [mark] + (body + ("\n" + after));
      RemarkSkips(body, after, mark);
      hide AfterGap;
      var more := GapFound(after, mark);
      g := [mark] + (body + ("\n" + more));
      if AfterGap(s, mark) == "" { RemarkLast(body, more, mark); } else { RemarkGap(body, more, mark); }
      Assoc("\n", more, AfterGap(after, mark));
      Assoc(body, "\n" + more, AfterGap(after, mark));
      Assoc([mark], body + ("\n" + more), AfterGap(after, mark));
    }
  }

  lemma LoneRemark(s: string, mark: char)
    requires !IsBlank(mark)
    requires s != "" && s[0] == mark && '\n' !in s
    ensures IsLastGap(s, mark) && AfterGap(s, mark) == ""
  {
    LineNeverEnds(s);
    assert s == "" + s && IsGap("", mark);
  }
}
