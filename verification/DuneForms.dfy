/** The reader of dune-project files and the printer of their terms. */
module DuneForms {
  import opened Text
  import Gaps

  /** An atom has no children; a list has an empty atom. */
  datatype Term = Term(atom: string, children: seq<Term>)

  predicate IsSpace(c: char) { c == ' ' || c == '\t' || c == '\n' || c == '\r' }

  predicate EndsAtom(c: char) { IsSpace(c) || c == '(' || c == ')' || c == ';' }

  // ----- what each parser method makes of the remaining content -----

  function AfterGap(s: string): (r: string)
    ensures |r| <= |s| && (r != "" ==> !IsSpace(r[0]) && r[0] != ';')
  {
    Gaps.AfterGap(s, ';')
  }

  function AtomLength(s: string): (n: nat)
    ensures n <= |s| && (s != "" && !EndsAtom(s[0]) ==> n > 0)
  {
    if s != "" && !EndsAtom(s[0]) then 1 + AtomLength(s[1..]) else 0
  }

  /** The value up to the closing quote, and what follows it. */
  function StringAt(s: string): (r: Option<(string, string)>)
    ensures r.Some? ==> |r.value.1| < |s|
    decreases |s|
  {
    if s == "" then None
    else if s[0] == '"' then Some(("", s[1..]))
    else
      var escaped := s[0] == '\\';
      if escaped && |s| == 1 then None
      else
        var c, tail := if escaped then s[1] else s[0], if escaped then s[2..] else s[1..];
        Prefixed([c], StringAt(tail))
  }

  function TermAt(s: string): (r: Option<(Term, string)>)
    ensures r.Some? ==> |r.value.1| < |s|
    decreases |s|, 0
  {
    var t := AfterGap(s);
    if t == "" then None
    else if t[0] == '(' then
      var inside := ListAt(t[1..]);
      if inside.None? then None else Some((Term("", inside.value.0), inside.value.1))
    else if t[0] == ')' then None
    else if t[0] == '"' then
      var text := StringAt(t[1..]);
      if text.None? then None else Some((Term(text.value.0, []), text.value.1))
    else Some((Term(t[..AtomLength(t)], []), t[AtomLength(t)..]))
  }

  /** The children up to the closing parenthesis. */
  function ListAt(s: string): (r: Option<(seq<Term>, string)>)
    ensures r.Some? ==> |r.value.1| < |s|
    decreases |s|, 1
  {
    var t := AfterGap(s);
    if t == "" then None
    else if t[0] == ')' then Some(([], t[1..]))
    else
      var child := TermAt(t);
      if child.None? then None
      else Prefixed([child.value.0], ListAt(child.value.1))
  }

  function FormsAt(s: string): Option<(seq<Term>, string)>
    decreases |s|
  {
    var t := AfterGap(s);
    if t == "" then Some(([], t))
    else
      var first := TermAt(t);
      if first.None? then None else Prefixed([first.value.0], FormsAt(first.value.1))
  }

  function Forms(content: string): Option<seq<Term>> {
    var r := FormsAt(content);
    if r.None? then None else Some(r.value.0)
  }

  // ----- the parser -----

  class Parser {
    const content: string
    var offset: nat

    constructor (content: string)
      ensures this.content == content && offset == 0
    {
      this.content := content;
      offset := 0;
    }

    predicate InRange() reads this { offset <= |content| }

    function Rest(): string
      requires InRange()
      reads this
    {
      content[offset..]
    }

    method SkipSpaceAndComments()
      requires InRange()
      modifies this
      ensures InRange() && Rest() == AfterGap(old(Rest()))
    {
      while offset < |content|
        invariant InRange() && AfterGap(old(Rest())) == AfterGap(Rest())
        decreases |Rest()|
      {
        assert Rest()[1..] == content[offset + 1..];
        if IsSpace(content[offset]) {
          offset := offset + 1;
          continue;
        }
        if content[offset] != ';' {
          return;
        }
        SkipLine();
      }
    }

    method SkipLine()
      requires InRange()
      modifies this
      ensures InRange() && Rest() == AfterLine(old(Rest()))
    {
      while offset < |content| && content[offset] != '\n'
        invariant InRange() && AfterLine(old(Rest())) == AfterLine(Rest())
      {
        assert Rest()[1..] == content[offset + 1..];
        offset := offset + 1;
      }
    }

    method ParseString() returns (r: Option<Term>)
      requires InRange() && Rest() != ""
      modifies this
      ensures InRange() && r.Some? == StringAt(old(Rest())[1..]).Some?
      ensures r.Some? ==> r.value == Term(StringAt(old(Rest())[1..]).value.0, []) && Rest() == StringAt(old(Rest())[1..]).value.1
    {
      assert Rest()[1..] == content[offset + 1..];
      offset := offset + 1;
      ghost var whole := StringAt(Rest());
      var value: string := "";
      PrefixedStep(value, ' ', whole);
      while offset < |content|
        invariant InRange() && whole == Prefixed(value, StringAt(Rest()))
      {
        ghost var s := Rest();
        assert s[1..] == content[offset + 1..];
        var character := content[offset];
        offset := offset + 1;
        if character == '"' {
          PrefixedEnd(value, Rest());
          return Some(Term(value, []));
        }
        if character == '\\' {
          if offset == |content| {
            return None;
          }
          assert s[2..] == content[offset + 1..];
          character := content[offset];
          offset := offset + 1;
        }
        assert StringAt(s) == Prefixed([character], StringAt(Rest()));
        hide StringAt;
        PrefixedStep(value, character, StringAt(Rest()));
        value := value + [character];
      }
      return None;
    }

    method ParseTerm() returns (r: Option<Term>)
      requires InRange()
      modifies this
      ensures InRange() && r.Some? == TermAt(old(Rest())).Some?
      ensures r.Some? ==> (r.value, Rest()) == TermAt(old(Rest())).value
      decreases |Rest()|, 0
    {
      hide ListAt, StringAt, AfterGap, AtomLength;
      SkipSpaceAndComments();
      ghost var t := Rest();
      if offset == |content| {
        return None;
      }
      if content[offset] == '(' {
        assert t[1..] == content[offset + 1..];
        offset := offset + 1;
        var children := ParseChildren();
        return if children.None? then None else Some(Term("", children.value));
      }
      if content[offset] == ')' {
        return None;
      }
      if content[offset] == '"' {
        r := ParseString();
        return;
      }
      var atom := ParseAtom();
      return Some(Term(atom, []));
    }

    method ParseAtom() returns (atom: string)
      requires InRange()
      modifies this
      ensures InRange() && atom == old(Rest())[..AtomLength(old(Rest()))] && Rest() == old(Rest())[AtomLength(old(Rest()))..]
    {
      ghost var t := Rest();
      var start := offset;
      while offset < |content| && !EndsAtom(content[offset])
        invariant start <= offset <= |content| && AtomLength(t) == offset - start + AtomLength(Rest())
      {
        assert Rest()[1..] == content[offset + 1..];
        offset := offset + 1;
      }
      assert content[start..offset] == t[..AtomLength(t)] && content[offset..] == t[AtomLength(t)..];
      return content[start..offset];
    }

    /** The loop over a list's children. */
    method ParseChildren() returns (r: Option<seq<Term>>)
      requires InRange()
      modifies this
      ensures InRange() && r.Some? == ListAt(old(Rest())).Some?
      ensures r.Some? ==> (r.value, Rest()) == ListAt(old(Rest())).value
      decreases |Rest()|, 1
    {
      hide TermAt;
      ghost var whole := ListAt(Rest());
      var children: seq<Term> := [];
      PrefixedStep(children, Term("", []), whole);
      while true
        invariant InRange() && |Rest()| <= |old(Rest())|
        invariant whole == Prefixed(children, ListAt(Rest()))
        decreases |Rest()|
      {
        SkipSpaceAndComments();
        ghost var t := Rest();
        if offset == |content| {
          return None;
        }
        if content[offset] == ')' {
          assert t[1..] == content[offset + 1..];
          offset := offset + 1;
          PrefixedEnd(children, Rest());
          return Some(children);
        }
        var child := ParseTerm();
        if child.None? {
          return None;
        }
        PrefixedStep(children, child.value, ListAt(Rest()));
        children := children + [child.value];
      }
    }
  }

  method ParseForms(content: string) returns (r: Option<seq<Term>>)
    ensures r == Forms(content)
  {
    hide TermAt;
    var parser := new Parser(content);
    var forms: seq<Term> := [];
    assert content[0..] == content;
    PrefixedStep(forms, Term("", []), FormsAt(content));
    while true
      invariant parser.InRange() && parser.content == content
      invariant FormsAt(content) == Prefixed(forms, FormsAt(parser.Rest()))
      decreases |parser.Rest()|
    {
      parser.SkipSpaceAndComments();
      if parser.offset == |parser.content| {
        PrefixedEnd(forms, parser.Rest());
        return Some(forms);
      }
      var term := parser.ParseTerm();
      if term.None? {
        return None;
      }
      PrefixedStep(forms, term.value, FormsAt(parser.Rest()));
      forms := forms + [term.value];
    }
  }
}
