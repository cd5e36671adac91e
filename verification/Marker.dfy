/** The environment-marker recogniser accepts exactly the language of its grammar (PEP 508, section
    "Grammar", with backslash escapes in strings and the variables listed here). */
module Marker {
  import opened Text

  const VARIABLES: set<string> := {
    "implementation_name", "implementation_version", "os_name", "platform_machine",
    "platform_python_implementation", "platform_release", "platform_system", "platform_version",
    "python_full_version", "python_version", "sys_platform", "extra", "extras", "dependency_groups" }

  const SYMBOLS: seq<string> := ["===", "~=", "==", "!=", "<=", ">=", "<", ">"]

  predicate Blank(c: char) { c == ' ' || c == '\t' }

  predicate WordChar(c: char) { c == '_' || 'a' <= c <= 'z' }

  predicate StartsWord(s: string) { s != "" && WordChar(s[0]) }

  // ----- what each parser method does to the remaining input -----

  function SkipBlank(s: string): (r: string)
    ensures |r| <= |s| && r == s[|s| - |r|..]
  {
    if s != "" && Blank(s[0]) then SkipBlank(s[1..]) else s
  }

  /** Success and the rest; a failing keyword still consumes the blanks. */
  function Keyword(s: string, keyword: string): (r: (bool, string))
    ensures |r.1| <= |s| - (if r.0 then |keyword| else 0)
  {
    KeywordAt(SkipBlank(s), keyword)
  }

  function KeywordAt(t: string, keyword: string): (r: (bool, string))
    ensures |r.1| <= |t| - (if r.0 then |keyword| else 0)
    ensures !r.0 ==> r.1 == t
  {
    if keyword <= t && !StartsWord(t[|keyword|..]) then (true, t[|keyword|..]) else (false, t)
  }

  function StringRest(s: string, quote: char): (r: Option<string>)
    ensures r.Some? ==> |r.value| < |s|
    decreases |s|
  {
    if s == "" then None
    else if s[0] == '\\' && |s| > 1 then StringRest(s[2..], quote)
    else if s[0] == quote then Some(s[1..])
    else StringRest(s[1..], quote)
  }

  function WordLength(s: string): (n: nat)
    ensures n <= |s|
  {
    if StartsWord(s) then 1 + WordLength(s[1..]) else 0
  }

  function Value(s: string): (r: Option<string>)
    ensures r.Some? ==> |r.value| < |s|
  {
    ValueAt(SkipBlank(s))
  }

  function ValueAt(t: string): (r: Option<string>)
    ensures r.Some? ==> |r.value| < |t|
  {
    if t == "" then None
    else if t[0] == '\'' || t[0] == '"' then StringRest(t[1..], t[0])
    else
      var n := WordLength(t);
      if IsVariable(t[..n]) then Some(t[n..]) else None
  }

  predicate IsVariable(name: string): (b: bool)
    ensures name == "" ==> !b
  {
    name in VARIABLES
  }

  /** The first symbol, in order of trial from index k, that the input starts with. */
  function SymbolRest(s: string, k: nat): (r: Option<string>)
    requires k <= |SYMBOLS|
    ensures r.Some? ==> |r.value| < |s|
    decreases |SYMBOLS| - k
  {
    if k == |SYMBOLS| then None
    else if SYMBOLS[k] <= s then (assert |SYMBOLS[k]| > 0; Some(s[|SYMBOLS[k]|..]))
    else SymbolRest(s, k + 1)
  }

  function Operator(s: string): (r: Option<string>)
    ensures r.Some? ==> |r.value| < |s|
  {
    var t := SkipBlank(s);
    var symbol := SymbolRest(t, 0);
    if symbol.Some? then symbol
    else if Keyword(t, "in").0 then Some(Keyword(t, "in").1)
    else
      var (negated, u) := Keyword(t, "not");
      if negated && Keyword(u, "in").0 then Some(Keyword(u, "in").1) else None
  }

  function Comparison(s: string): (r: Option<string>)
    ensures r.Some? ==> |r.value| < |s|
  {
    var left := Value(s);
    if left.None? then None
    else
      var operator := Operator(left.value);
      if operator.None? then None else Value(operator.value)
  }

  function Term(s: string): (r: Option<string>)
    ensures r.Some? ==> |r.value| < |s|
    decreases |s|, 1
  {
    var t := SkipBlank(s);
    if "(" <= t then
      var inner := Expression(t[1..]);
      if inner.None? then None
      else
        var u := SkipBlank(inner.value);
        if ")" <= u then Some(u[1..]) else None
    else Comparison(t)
  }

  function AndRest(s: string): (r: Option<string>)
    ensures r.Some? ==> |r.value| <= |s|
    decreases |s|, 0
  {
    var (more, t) := Keyword(s, "and");
    if !more then Some(t)
    else
      var term := Term(t);
      if term.None? then None else AndRest(term.value)
  }

  function AndExpression(s: string): (r: Option<string>)
    ensures r.Some? ==> |r.value| < |s|
    decreases |s|, 2
  {
    var term := Term(s);
    if term.None? then None else AndRest(term.value)
  }

  function OrRest(s: string): (r: Option<string>)
    ensures r.Some? ==> |r.value| <= |s|
    decreases |s|, 0
  {
    var (more, t) := Keyword(s, "or");
    if !more then Some(t)
    else
      var conjunction := AndExpression(t);
      if conjunction.None? then None else OrRest(conjunction.value)
  }

  function Expression(s: string): (r: Option<string>)
    ensures r.Some? ==> |r.value| < |s|
    decreases |s|, 3
  {
    var conjunction := AndExpression(s);
    if conjunction.None? then None else OrRest(conjunction.value)
  }

  predicate Valid(marker: string) {
    Expression(marker).Some? && SkipBlank(Expression(marker).value) == ""
  }

  // ----- the parser itself -----

  class Parser {
    const input: string
    var pos: nat

    constructor (input: string)
      ensures this.input == input && pos == 0
    {
      this.input := input;
      pos := 0;
    }

    predicate InRange() reads this { pos <= |input| }

    function Rest(): string
      requires InRange()
      reads this
    {
      input[pos..]
    }

    method Space()
      requires InRange()
      modifies this
      ensures InRange() && Rest() == SkipBlank(old(Rest()))
    {
      while pos < |input| && Blank(input[pos])
        invariant InRange() && SkipBlank(old(Rest())) == SkipBlank(Rest())
      {
        assert input[pos..][1..] == input[pos + 1..];
        pos := pos + 1;
      }
    }

    method Take(value: string) returns (ok: bool)
      requires InRange()
      modifies this
      ensures InRange() && ok == (value <= old(Rest()))
      ensures Rest() == if ok then old(Rest())[|value|..] else old(Rest())
    {
      if value <= input[pos..] {
        pos := pos + |value|;
        return true;
      }
      return false;
    }

    method TryKeyword(keyword: string) returns (ok: bool)
      requires InRange()
      modifies this
      ensures InRange() && (ok, Rest()) == Keyword(old(Rest()), keyword)
    {
      hide SkipBlank;
      Space();
      ghost var t := Rest();
      var end := pos + |keyword|;
      PrefixAt(input, pos, keyword);
      if end > |input| || input[pos..end] != keyword {
        return false;
      }
      assert t[|keyword|..] == input[end..];
      if end < |input| && WordChar(input[end]) {
        return false;
      }
      pos := end;
      return true;
    }

    method ParseQuoted(quote: char) returns (ok: bool)
      requires InRange()
      modifies this
      ensures InRange() && ok == StringRest(old(Rest()), quote).Some?
      ensures ok ==> Rest() == StringRest(old(Rest()), quote).value
    {
      while pos < |input|
        invariant InRange() && StringRest(old(Rest()), quote) == StringRest(Rest(), quote)
      {
        if input[pos] == '\\' && pos + 1 < |input| {
          assert Rest()[2..] == input[pos + 2..];
          pos := pos + 2;
          continue;
        }
        assert Rest()[1..] == input[pos + 1..];
        if input[pos] == quote {
          pos := pos + 1;
          return true;
        }
        pos := pos + 1;
      }
      return false;
    }

    method ParseWord() returns (word: string)
      requires InRange()
      modifies this
      ensures InRange() && word == old(Rest())[..WordLength(old(Rest()))]
      ensures Rest() == old(Rest())[WordLength(old(Rest()))..]
    {
      var start := pos;
      while pos < |input| && WordChar(input[pos])
        invariant start <= pos <= |input| && WordLength(old(Rest())) == pos - start + WordLength(Rest())
      {
        assert Rest()[1..] == input[pos + 1..];
        pos := pos + 1;
      }
      return input[start..pos];
    }

    method ParseValue() returns (ok: bool)
      requires InRange()
      modifies this
      ensures InRange() && ok == Value(old(Rest())).Some?
      ensures ok ==> Rest() == Value(old(Rest())).value
    {
      hide IsVariable, StringRest, WordLength;
      Space();
      if pos >= |input| {
        return false;
      }
      if input[pos] == '\'' || input[pos] == '"' {
        var quote := input[pos];
        assert Rest()[1..] == input[pos + 1..];
        pos := pos + 1;
        ok := ParseQuoted(quote);
        return ok;
      }
      var word := ParseWord();
      return IsVariable(word);
    }

    method TakeSymbol() returns (ok: bool)
      requires InRange()
      modifies this
      ensures InRange() && ok == SymbolRest(old(Rest()), 0).Some?
      ensures Rest() == if ok then SymbolRest(old(Rest()), 0).value else old(Rest())
    {
      for k := 0 to |SYMBOLS|
        invariant InRange() && Rest() == old(Rest()) && SymbolRest(old(Rest()), 0) == SymbolRest(old(Rest()), k)
      {
        var taken := Take(SYMBOLS[k]);
        if taken {
          return true;
        }
      }
      return false;
    }

    method ParseOperator() returns (ok: bool)
      requires InRange()
      modifies this
      ensures InRange() && ok == Operator(old(Rest())).Some?
      ensures Rest() == if ok then Operator(old(Rest())).value else SkipBlank(old(Rest()))
    {
      hide SymbolRest, Keyword, SkipBlank;
      Space();
      ghost var t := Rest();
      var found := TakeSymbol();
      if found {
        return true;
      }
      var start := pos;
      found := TryKeyword("in");
      if found {
        return true;
      }
      KeywordIgnoresBlanks(t, Rest(), "in", "not");
      var negated := TryKeyword("not");
      if negated {
        found := TryKeyword("in");
        if found {
          return true;
        }
      }
      pos := start;
      return false;
    }

    method ParseComparison() returns (ok: bool)
      requires InRange()
      modifies this
      ensures InRange() && ok == Comparison(old(Rest())).Some?
      ensures ok ==> Rest() == Comparison(old(Rest())).value
    {
      hide Value, Operator;
      ok := ParseValue();
      if !ok {
        return false;
      }
      ok := ParseOperator();
      if !ok {
        return false;
      }
      ok := ParseValue();
    }

    method ParseTerm() returns (ok: bool)
      requires InRange()
      modifies this
      ensures InRange() && ok == Term(old(Rest())).Some?
      ensures ok ==> Rest() == Term(old(Rest())).value
      decreases |Rest()|, 1
    {
      hide Comparison, Expression, SkipBlank;
      Space();
      var open := Take("(");
      if open {
        ok := ParseExpression();
        if !ok {
          return false;
        }
        Space();
        ok := Take(")");
        return ok;
      }
      ok := ParseComparison();
    }

    method ParseAndExpression() returns (ok: bool)
      requires InRange()
      modifies this
      ensures InRange() && ok == AndExpression(old(Rest())).Some?
      ensures ok ==> Rest() == AndExpression(old(Rest())).value
      decreases |Rest()|, 2
    {
      hide Term, Keyword;
      ok := ParseTerm();
      if !ok {
        return false;
      }
      var more := true;
      while true
        invariant InRange() && |Rest()| < |old(Rest())| && AndExpression(old(Rest())) == AndRest(Rest())
        decreases |Rest()|
      {
        more := TryKeyword("and");
        if !more {
          return true;
        }
        ok := ParseTerm();
        if !ok {
          return false;
        }
      }
    }

    method ParseExpression() returns (ok: bool)
      requires InRange()
      modifies this
      ensures InRange() && ok == Expression(old(Rest())).Some?
      ensures ok ==> Rest() == Expression(old(Rest())).value
      decreases |Rest()|, 3
    {
      hide AndExpression, Keyword;
      ok := ParseAndExpression();
      if !ok {
        return false;
      }
      var more := true;
      while true
        invariant InRange() && |Rest()| < |old(Rest())| && Expression(old(Rest())) == OrRest(Rest())
        decreases |Rest()|
      {
        more := TryKeyword("or");
        if !more {
          return true;
        }
        ok := ParseAndExpression();
        if !ok {
          return false;
        }
      }
    }
  }

  lemma {:induction false} SkipBlankTwice(s: string)
    ensures SkipBlank(SkipBlank(s)) == SkipBlank(s)
  {
    if s != "" && Blank(s[0]) { SkipBlankTwice(s[1..]); }
  }

  lemma PrefixAt(s: string, pos: nat, prefix: string)
    requires pos <= |s|
    ensures prefix <= s[pos..] <==> pos + |prefix| <= |s| && s[pos..pos + |prefix|] == prefix
  {
    if pos + |prefix| <= |s| {
      assert s[pos..][..|prefix|] == s[pos..pos + |prefix|];
    }
  }

  /** The blanks a failing keyword consumes make no difference to the next keyword. */
  lemma KeywordIgnoresBlanks(s: string, t: string, tried: string, keyword: string)
    requires (false, t) == Keyword(s, tried)
    ensures Keyword(t, keyword) == Keyword(s, keyword)
  {
    hide SkipBlank, KeywordAt;
    SkipBlankTwice(s);
  }

  method ValidatePEP508Marker(marker: string) returns (valid: bool)
    ensures valid == Valid(marker)
  {
    var p := new Parser(marker);
    assert p.Rest() == marker;
    var ok := p.ParseExpression();
    if !ok {
      return false;
    }
    p.Space();
    return p.pos == |p.input|;
  }
}
