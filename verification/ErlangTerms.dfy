/** The reader of Erlang terms in rebar.config files. */
module ErlangTerms {
  import opened Text
  import Gaps

  datatype Term = Atom(value: string) | Str(value: string) | Tuple(values: seq<Term>) | List(values: seq<Term>)

  predicate IsSpace(c: char) { c == ' ' || c == '\t' || c == '\n' || c == '\r' }

  /** The characters that end an unquoted atom. */
  predicate EndsAtom(c: char) {
    IsSpace(c) || c == '{' || c == '}' || c == '[' || c == ']' || c == ',' || c == '.' || c == '%' || c == '"' || c == '\''
  }

  // ----- what each parser method makes of the remaining content -----

  function AfterGap(s: string): (r: string)
    ensures |r| <= |s| && (r != "" ==> !IsSpace(r[0]) && r[0] != '%')
  {
    Gaps.AfterGap(s, '%')
  }

  function AtomLength(s: string): (n: nat)
    ensures n <= |s|
  {
    if s != "" && !EndsAtom(s[0]) then 1 + AtomLength(s[1..]) else 0
  }

  function Unescaped(c: char): char {
    if c == 'n' then '\n' else if c == 'r' then '\r' else if c == 't' then '\t' else c
  }

  /** The value up to the closing quote, and what follows it. */
  function QuotedAt(s: string, quote: char): (r: Option<(string, string)>)
    ensures r.Some? ==> |r.value.1| < |s|
    decreases |s|
  {
    if s == "" then None
    else if s[0] == quote then Some(("", s[1..]))
    else if s[0] != '\\' then Prefixed([s[0]], QuotedAt(s[1..], quote))
    else if |s| == 1 then None
    else Prefixed([Unescaped(s[1])], QuotedAt(s[2..], quote))
  }

  /** After `<<`: one quoted string and `>>`. */
  function BinaryAt(s: string): (r: Option<(Term, string)>)
    ensures r.Some? ==> |r.value.1| < |s|
  {
    var t := AfterGap(s);
    if t == "" || t[0] != '"' then None
    else
      var text := QuotedAt(t[1..], '"');
      if text.None? then None
      else
        var u := AfterGap(text.value.1);
        if HasPrefix(u, ">>") then Some((Str(text.value.0), u[2..])) else None
  }

  function TermAt(s: string): (r: Option<(Term, string)>)
    ensures r.Some? ==> |r.value.1| < |s|
    decreases |s|, 0
  {
    var t := AfterGap(s);
    if t == "" then None
    else if HasPrefix(t, "<<") then BinaryAt(t[2..])
    else if t[0] == '{' then
      var inside := ValuesAt(t[1..], '}');
      if inside.None? then None else Some((Tuple(inside.value.0), inside.value.1))
    else if t[0] == '[' then
      var inside := ValuesAt(t[1..], ']');
      if inside.None? then None else Some((List(inside.value.0), inside.value.1))
    else if t[0] == '"' || t[0] == '\'' then
      var text := QuotedAt(t[1..], t[0]);
      if text.None? then None
      else Some((if t[0] == '"' then Str(text.value.0) else Atom(text.value.0), text.value.1))
    else
      var n := AtomLength(t);
      if n == 0 then None else Some((Atom(t[..n]), t[n..]))
  }

  /** Where reading goes on after a value: at the closing bracket or behind the comma. */
  function Resumes(u: string, close: char): (r: Option<string>)
    ensures r.Some? ==> |r.value| <= |u|
  {
    if u == "" then None else if u[0] == close then Some(u) else if u[0] == ',' then Some(u[1..]) else None
  }

  /** A value and its separator. */
  function ElementAt(s: string, close: char): (r: Option<(Term, string)>)
    ensures r.Some? ==> |r.value.1| < |s|
    decreases |s|, 1
  {
    var value := TermAt(s);
    if value.None? then None
    else
      var rest := Resumes(AfterGap(value.value.1), close);
      if rest.None? then None else Some((value.value.0, rest.value))
  }

  /** The tail after `|`, and the closing bracket. */
  function TailAt(s: string, close: char): (r: Option<(seq<Term>, string)>)
    ensures r.Some? ==> |r.value.1| < |s|
    decreases |s|, 1
  {
    var tail := TermAt(s);
    if tail.None? then None
    else
      var u := AfterGap(tail.value.1);
      if u != "" && u[0] == close then Some(([tail.value.0], u[1..])) else None
  }

  /** The values up to the closing bracket; only a list may have a tail. */
  function ValuesAt(s: string, close: char): (r: Option<(seq<Term>, string)>)
    ensures r.Some? ==> |r.value.1| < |s|
    decreases |s|, 2
  {
    var t := AfterGap(s);
    if t == "" then None
    else if t[0] == close then Some(([], t[1..]))
    else if t[0] == '|' && close == ']' then TailAt(t[1..], close)
    else
      var e := ElementAt(t, close);
      if e.None? then None else Prefixed([e.value.0], ValuesAt(e.value.1, close))
  }

  /** Terms, each but possibly the last followed by a full stop. */
  function TermsAt(s: string): Option<(seq<Term>, string)>
    decreases |s|
  {
    var t := AfterGap(s);
    if t == "" then Some(([], t))
    else
      var term := TermAt(t);
      if term.None? then None
      else
        var u := AfterGap(term.value.1);
        if u == "" then Some(([term.value.0], u))
        else if u[0] == '.' then Prefixed([term.value.0], TermsAt(u[1..]))
        else None
  }

  function Terms(content: string): Option<seq<Term>> {
    var r := TermsAt(content);
    if r.None? then None else Some(r.value.0)
  }

  lemma GapTwice(s: string)
    ensures AfterGap(AfterGap(s)) == AfterGap(s)
  {
  }

  // ----- the parser -----

  class Parser {
    const content: string
    var pos: nat

    constructor (content: string)
      ensures this.content == content && pos == 0
    {
      this.content := content;
      pos := 0;
    }

    predicate InRange() reads this { pos <= |content| }

    function Rest(): string
      requires InRange()
      reads this
    {
      content[pos..]
    }

    method SkipIgnored()
      requires InRange()
      modifies this
      ensures InRange() && Rest() == AfterGap(old(Rest())) && pos >= old(pos)
    {
      while pos < |content|
        invariant old(pos) <= pos <= |content| && AfterGap(old(Rest())) == AfterGap(Rest())
        decreases |Rest()|
      {
        assert Rest()[1..] == content[pos + 1..];
        if IsSpace(content[pos]) {
          pos := pos + 1;
          continue;
        }
        if content[pos] == '%' {
          SkipLine();
          continue;
        }
        return;
      }
    }

    method SkipLine()
      requires InRange()
      modifies this
      ensures InRange() && Rest() == AfterLine(old(Rest())) && pos >= old(pos)
    {
      while pos < |content| && content[pos] != '\n'
        invariant old(pos) <= pos <= |content| && AfterLine(old(Rest())) == AfterLine(Rest())
      {
        assert Rest()[1..] == content[pos + 1..];
        pos := pos + 1;
      }
    }

    method ParseQuoted(quote: char) returns (r: Option<string>)
      requires InRange() && Rest() != ""
      modifies this
      ensures InRange() && r.Some? == QuotedAt(old(Rest())[1..], quote).Some? && pos > old(pos)
      ensures r.Some? ==> (r.value, Rest()) == QuotedAt(old(Rest())[1..], quote).value
    {
      assert Rest()[1..] == content[pos + 1..];
      pos := pos + 1;
      ghost var whole := QuotedAt(Rest(), quote);
      var value: string := "";
      PrefixedStep(value, ' ', whole);
      while pos < |content|
        invariant old(pos) < pos <= |content| && whole == Prefixed(value, QuotedAt(Rest(), quote))
      {
        ghost var s := Rest();
        assert s[1..] == content[pos + 1..];
        var character := content[pos];
        pos := pos + 1;
        if character == quote {
          PrefixedEnd(value, Rest());
          return Some(value);
        }
        if character == '\\' {
          if pos == |content| {
            return None;
          }
          assert s[2..] == content[pos + 1..];
          var escaped := content[pos];
          pos := pos + 1;
          character := match escaped
            case 'n' => '\n'
            case 'r' => '\r'
            case 't' => '\t'
            case _ => escaped;
        }
        assert QuotedAt(s, quote) == Prefixed([character], QuotedAt(Rest(), quote));
        hide QuotedAt;
        PrefixedStep(value, character, QuotedAt(Rest(), quote));
        value := value + [character];
      }
      return None;
    }

    method ParseBinaryString() returns (r: Option<Term>)
      requires InRange() && |Rest()| >= 2
      modifies this
      ensures InRange() && r.Some? == BinaryAt(old(Rest())[2..]).Some? && pos > old(pos)
      ensures r.Some? ==> (r.value, Rest()) == BinaryAt(old(Rest())[2..]).value
    {
      hide QuotedAt, AfterGap;
      assert Rest()[2..] == content[pos + 2..];
      pos := pos + 2;
      SkipIgnored();
      if pos == |content| || content[pos] != '"' {
        return None;
      }
      var value := ParseQuoted('"');
      if value.None? {
        return None;
      }
      SkipIgnored();
      ghost var u := Rest();
      if pos + 1 >= |content| || content[pos] != '>' || content[pos + 1] != '>' {
        assert !HasPrefix(u, ">>");
        return None;
      }
      assert u[..2] == ">>" && u[2..] == content[pos + 2..];
      pos := pos + 2;
      return Some(Str(value.value));
    }

    method ParseTerm() returns (r: Option<Term>)
      requires InRange()
      modifies this
      ensures InRange() && pos >= old(pos) && r.Some? == TermAt(old(Rest())).Some?
      ensures r.Some? ==> pos > old(pos) && (r.value, Rest()) == TermAt(old(Rest())).value
      decreases |Rest()|, 1
    {
      hide ValuesAt, QuotedAt, BinaryAt, AfterGap;
      SkipIgnored();
      ghost var t := Rest();
      if pos == |content| {
        return None;
      }
      if content[pos] == '<' && pos + 1 < |content| && content[pos + 1] == '<' {
        assert t[..2] == "<<";
        r := ParseBinaryString();
        return;
      }
      assert !HasPrefix(t, "<<");
      if content[pos] == '{' {
        var values := ParseCollection('}');
        return if values.None? then None else Some(Tuple(values.value));
      }
      if content[pos] == '[' {
        var values := ParseCollection(']');
        return if values.None? then None else Some(List(values.value));
      }
      if content[pos] == '"' {
        var value := ParseQuoted('"');
        return if value.None? then None else Some(Str(value.value));
      }
      if content[pos] == '\'' {
        var value := ParseQuoted('\'');
        return if value.None? then None else Some(Atom(value.value));
      }
      r := ParseAtom();
    }

    method ParseAtom() returns (r: Option<Term>)
      requires InRange()
      modifies this
      ensures var n := AtomLength(old(Rest()));
              InRange() && pos == old(pos) + n && r == if n == 0 then None else Some(Atom(old(Rest())[..n]))
      ensures Rest() == old(Rest())[AtomLength(old(Rest()))..]
    {
      ghost var t := Rest();
      var start := pos;
      while pos < |content| && !EndsAtom(content[pos])
        invariant start <= pos <= |content| && AtomLength(t) == pos - start + AtomLength(Rest())
      {
        assert Rest()[1..] == content[pos + 1..];
        pos := pos + 1;
      }
      assert content[start..pos] == t[..AtomLength(t)] && content[pos..] == t[AtomLength(t)..];
      return if start == pos then None else Some(Atom(content[start..pos]));
    }

    /** The values after the opening bracket, which is still to be read. */
    method ParseCollection(close: char) returns (r: Option<seq<Term>>)
      requires InRange() && Rest() != ""
      modifies this
      ensures InRange() && pos > old(pos) && r.Some? == ValuesAt(old(Rest())[1..], close).Some?
      ensures r.Some? ==> (r.value, Rest()) == ValuesAt(old(Rest())[1..], close).value
      decreases |Rest()|, 0
    {
      hide AfterGap, ElementAt, TailAt;
      assert Rest()[1..] == content[pos + 1..];
      pos := pos + 1;
      ghost var whole := ValuesAt(Rest(), close);
      var values: seq<Term> := [];
      PrefixedStep(values, Atom(""), whole);
      while true
        invariant old(pos) < pos <= |content| && whole == Prefixed(values, ValuesAt(Rest(), close))
        decreases |Rest()|
      {
        SkipIgnored();
        assert Rest() != "" ==> Rest()[1..] == content[pos + 1..];
        if pos == |content| {
          return None;
        }
        if content[pos] == close {
          pos := pos + 1;
          PrefixedEnd(values, Rest());
          return Some(values);
        }
        if content[pos] == '|' && close == ']' {
          pos := pos + 1;
          var tail := ParseTail(close);
          return if tail.None? then None else Some(values + tail.value);
        }
        var value := ParseElement(close);
        if value.None? {
          return None;
        }
        PrefixedStep(values, value.value, ValuesAt(Rest(), close));
        values := values + [value.value];
      }
    }

    /** A value and its separator; a closing bracket is left for the loop to see. */
    method ParseElement(close: char) returns (r: Option<Term>)
      requires InRange()
      modifies this
      ensures InRange() && pos >= old(pos) && r.Some? == ElementAt(old(Rest()), close).Some?
      ensures r.Some? ==> pos > old(pos) && (r.value, Rest()) == ElementAt(old(Rest()), close).value
      decreases |Rest()|, 2
    {
      hide AfterGap, TermAt;
      var value := ParseTerm();
      if value.None? {
        return None;
      }
      SkipIgnored();
      assert Rest() != "" ==> Rest()[1..] == content[pos + 1..];
      if pos == |content| {
        return None;
      }
      if content[pos] == close {
        return value;
      }
      if content[pos] != ',' {
        return None;
      }
      pos := pos + 1;
      return value;
    }

    /** The list tail after `|`. */
    method ParseTail(close: char) returns (r: Option<seq<Term>>)
      requires InRange()
      modifies this
      ensures InRange() && pos >= old(pos) && r.Some? == TailAt(old(Rest()), close).Some?
      ensures r.Some? ==> (r.value, Rest()) == TailAt(old(Rest()), close).value
      decreases |Rest()|, 2
    {
      hide AfterGap, TermAt;
      TermSkips(Rest());
      SkipIgnored();
      var value := ParseTerm();
      if value.None? {
        return None;
      }
      SkipIgnored();
      if pos == |content| || content[pos] != close {
        return None;
      }
      assert Rest()[1..] == content[pos + 1..];
      pos := pos + 1;
      return Some([value.value]);
    }
  }

  lemma TermSkips(s: string)
    ensures TermAt(AfterGap(s)) == TermAt(s)
  {
    GapTwice(s);
    hide AfterGap, ValuesAt, BinaryAt, QuotedAt;
  }

  method ParseTerms(content: string) returns (r: Option<seq<Term>>)
    ensures r == Terms(content)
  {
    hide TermAt, AfterGap;
    var parser := new Parser(content);
    var terms: seq<Term> := [];
    assert content[0..] == content;
    PrefixedStep(terms, Atom(""), TermsAt(content));
    while true
      invariant parser.InRange() && parser.content == content
      invariant TermsAt(content) == Prefixed(terms, TermsAt(parser.Rest()))
      decreases |parser.Rest()|
    {
      ghost var s := parser.Rest();
      parser.SkipIgnored();
      if parser.pos == |parser.content| {
        PrefixedEnd(terms, parser.Rest());
        return Some(terms);
      }
      var term := parser.ParseTerm();
      if term.None? {
        return None;
      }
      parser.SkipIgnored();
      ghost var u := parser.Rest();
      if parser.pos == |parser.content| {
        return Some(terms + [term.value]);
      }
      if parser.content[parser.pos] != '.' {
        return None;
      }
      assert u[1..] == content[parser.pos + 1..];
      parser.pos := parser.pos + 1;
      assert TermsAt(s) == Prefixed([term.value], TermsAt(parser.Rest()));
      hide TermsAt;
      PrefixedStep(terms, term.value, TermsAt(parser.Rest()));
      terms := terms + [term.value];
    }
  }
}
