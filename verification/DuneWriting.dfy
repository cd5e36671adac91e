/** How dune-project files are written: concrete syntax with any gaps, exactly what the reader reads. */
module DuneWriting {
  import opened Text
  import opened DuneForms
  import Gaps

  ghost predicate IsGap(g: string) { Gaps.IsGap(g, ';') }

  /** A comment at the end of a file needs no line feed. */
  ghost predicate IsLastGap(g: string) { Gaps.IsLastGap(g, ';') }

  lemma GapFound(s: string) returns (g: string)
    ensures s == g + AfterGap(s) && (if AfterGap(s) == "" then IsLastGap(g) else IsGap(g))
  {
    g := Gaps.GapFound(s, ';');
  }

  // ----- concrete syntax -----

  /** A character of a string, with or without a backslash before it. */
  datatype Unit = Plain(c: char) | Escaped(c: char)

  datatype Form = Bare(text: string) | Quoted(units: seq<Unit>) | Parens(items: seq<Item>, gap: string)

  datatype Item = Item(gap: string, form: Form)

  predicate Ends(c: char) { c == ' ' || c == '\t' || c == '\n' || c == '\r' || c == '(' || c == ')' || c == ';' }

  predicate UnitsOk(us: seq<Unit>) { forall u :: u in us && u.Plain? ==> u.c != '"' && u.c != '\\' }

  function UnitText(u: Unit): string { if u.Plain? then [u.c] else ['\\', u.c] }

  function UnitsText(us: seq<Unit>): string { if us == [] then "" else UnitText(us[0]) + UnitsText(us[1..]) }

  function UnitsValue(us: seq<Unit>): string { if us == [] then "" else [us[0].c] + UnitsValue(us[1..]) }

  function FormText(f: Form): string
    decreases f
  {
    match f
    case Bare(text) => text
    case Quoted(units) => ['"'] + (UnitsText(units) + ['"'])
    case Parens(items, gap) => "(" + (ItemsText(items) + (gap + ")"))
  }

  function ItemsText(items: seq<Item>): string
    decreases items
  {
    if items == [] then "" else items[0].gap + (FormText(items[0].form) + ItemsText(items[1..]))
  }

  /** A bare atom is plain and ends before white space, a parenthesis, a comment or the end. */
  ghost predicate FormOk(f: Form, rest: string)
    decreases f
  {
    match f
    case Bare(text) =>
      && text != "" && text[0] != '"' && (forall i :: 0 <= i < |text| ==> !Ends(text[i]))
      && (rest == "" || Ends(rest[0]))
    case Quoted(units) => UnitsOk(units)
    case Parens(items, gap) => IsGap(gap) && ItemsOk(items, gap + (")" + rest))
  }

  ghost predicate ItemsOk(items: seq<Item>, rest: string)
    decreases items
  {
    items != [] ==>
      && IsGap(items[0].gap) && FormOk(items[0].form, ItemsText(items[1..]) + rest)
      && ItemsOk(items[1..], rest)
  }

  /** The term that a form stands for. */
  function Meaning(f: Form): Term
    decreases f
  {
    match f
    case Bare(text) => Term(text, [])
    case Quoted(units) => Term(UnitsValue(units), [])
    case Parens(items, _) => Term("", Meanings(items))
  }

  function Meanings(items: seq<Item>): seq<Term>
    decreases items
  {
    if items == [] then [] else [Meaning(items[0].form)] + Meanings(items[1..])
  }

  /** A file: forms with a gap before each and one at the end. */
  ghost predicate Writes(content: string, items: seq<Item>, last: string, ts: seq<Term>) {
    content == ItemsText(items) + last && ItemsOk(items, last) && IsLastGap(last) && Meanings(items) == ts
  }

  // ----- what is written is read -----

  lemma {:induction false} UnitsRead(us: seq<Unit>, rest: string)
    requires UnitsOk(us)
    ensures StringAt(UnitsText(us) + (['"'] + rest)) == Some((UnitsValue(us), rest))
  {
    var tail := ['"'] + rest;
    if us == [] {
      assert UnitsText(us) + tail == tail && tail[1..] == rest;
    } else {
      var more := UnitsText(us[1..]) + tail;
      UnitsRead(us[1..], rest);
      Assoc(UnitText(us[0]), UnitsText(us[1..]), tail);
      assert us[0] in us;
      UnitReads(us[0], more);
      hide StringAt, UnitText;
    }
  }

  lemma UnitReads(u: Unit, rest: string)
    requires u.Plain? ==> u.c != '"' && u.c != '\\'
    ensures StringAt(UnitText(u) + rest) == Prefixed([u.c], StringAt(rest))
  {
    var s := UnitText(u) + rest;
    if u.Plain? {
      assert s[1..] == rest;
    } else {
      assert s[2..] == rest;
    }
  }

  lemma {:induction false} BareLength(text: string, rest: string)
    requires forall i :: 0 <= i < |text| ==> !Ends(text[i])
    requires rest == "" || Ends(rest[0])
    ensures AtomLength(text + rest) == |text|
  {
    if text == "" {
      assert text + rest == rest;
    } else {
      assert (text + rest)[1..] == text[1..] + rest;
      BareLength(text[1..], rest);
    }
  }

  lemma BareReads(text: string, rest: string)
    requires FormOk(Bare(text), rest)
    ensures TermAt(text + rest) == Some((Term(text, []), rest))
  {
    var s := text + rest;
    BareLength(text, rest);
    assert !Ends(text[0]) && s[0] == text[0] && AfterGap(s) == s;
    assert s[..|text|] == text && s[|text|..] == rest;
  }

  lemma QuotedReads(us: seq<Unit>, rest: string)
    requires UnitsOk(us)
    ensures TermAt(FormText(Quoted(us)) + rest) == Some((Term(UnitsValue(us), []), rest))
  {
    var inside := UnitsText(us) + (['"'] + rest);
    Assoc(['"'], UnitsText(us) + ['"'], rest);
    Assoc(UnitsText(us), ['"'], rest);
    var s := ['"'] + inside;
    assert s[1..] == inside && AfterGap(s) == s;
    UnitsRead(us, rest);
    hide StringAt, UnitsText, UnitsValue;
  }

  lemma Starts(f: Form, rest: string)
    requires FormOk(f, rest)
    ensures var s := FormText(f) + rest; s != "" && s[0] != ')' && AfterGap(s) == s
  {
    if f.Bare? { assert !Ends(f.text[0]); }
  }

  lemma ListSkips(g: string, s: string)
    requires IsGap(g)
    ensures ListAt(g + s) == ListAt(s)
  {
    Gaps.SkipsGap(g, s, ';');
    hide AfterGap, TermAt, IsGap;
  }

  lemma ListEnds(rest: string)
    ensures ListAt(")" + rest) == Some(([], rest))
  {
    var s := ")" + rest;
    assert AfterGap(s) == s && s[1..] == rest;
  }

  lemma ListContinues(s: string, child: Term, rest: string)
    requires s != "" && s[0] != ')' && AfterGap(s) == s && TermAt(s) == Some((child, rest))
    ensures ListAt(s) == Prefixed([child], ListAt(rest))
  {
  }

  lemma ListOpens(inside: string, children: seq<Term>, rest: string)
    requires ListAt(inside) == Some((children, rest))
    ensures TermAt("(" + inside) == Some((Term("", children), rest))
  {
    var s := "(" + inside;
    assert AfterGap(s) == s && s[1..] == inside;
    hide ListAt;
  }

  lemma {:induction false} FormReads(f: Form, rest: string)
    requires FormOk(f, rest)
    ensures TermAt(FormText(f) + rest) == Some((Meaning(f), rest))
    decreases f
  {
    match f
    case Bare(text) => BareReads(text, rest);
    case Quoted(units) => QuotedReads(units, rest);
    case Parens(items, gap) =>
      hide TermAt, ListAt, IsGap, ItemsText, ItemsOk, Meanings;
      ItemsRead(items, gap, rest);
      ListOpens(ItemsText(items) + (gap + (")" + rest)), Meanings(items), rest);
      Assoc("(", ItemsText(items) + (gap + ")"), rest);
      Assoc(ItemsText(items), gap + ")", rest);
      Assoc(gap, ")", rest);
  }

  lemma {:induction false} ItemsRead(items: seq<Item>, gap: string, rest: string)
    requires IsGap(gap) && ItemsOk(items, gap + (")" + rest))
    ensures ListAt(ItemsText(items) + (gap + (")" + rest))) == Some((Meanings(items), rest))
    decreases items
  {
    hide TermAt, ListAt, AfterGap, IsGap, FormOk, FormText, Meaning;
    var end := gap + (")" + rest);
    if items == [] {
      ListSkips(gap, ")" + rest);
      ListEnds(rest);
      assert ItemsText(items) + end == end;
    } else {
      var after := ItemsText(items[1..]) + end;
      var f := items[0].form;
      ItemsRead(items[1..], gap, rest);
      FormReads(f, after);
      Starts(f, after);
      ListContinues(FormText(f) + after, Meaning(f), after);
      ListSkips(items[0].gap, FormText(f) + after);
      Assoc(items[0].gap, FormText(f) + ItemsText(items[1..]), end);
      Assoc(FormText(f), ItemsText(items[1..]), end);
    }
  }

  lemma FormsContinue(g: string, s: string, t: Term, rest: string)
    requires IsGap(g) && s != "" && AfterGap(s) == s && TermAt(s) == Some((t, rest))
    ensures FormsAt(g + s) == Prefixed([t], FormsAt(rest))
  {
    Gaps.SkipsGap(g, s, ';');
    hide IsGap, AfterGap, TermAt;
  }

  lemma {:induction false} FileReads(items: seq<Item>, last: string)
    requires ItemsOk(items, last) && IsLastGap(last)
    ensures FormsAt(ItemsText(items) + last) == Some((Meanings(items), ""))
    decreases items
  {
    hide TermAt, FormsAt, AfterGap, IsGap, IsLastGap, FormOk, FormText, Meaning;
    if items == [] {
      assert ItemsText(items) + last == last;
      FileEnds(last);
    } else {
      var after := ItemsText(items[1..]) + last;
      var f := items[0].form;
      FileReads(items[1..], last);
      FormReads(f, after);
      Starts(f, after);
      FormsContinue(items[0].gap, FormText(f) + after, Meaning(f), after);
      Assoc(items[0].gap, FormText(f) + ItemsText(items[1..]), last);
      Assoc(FormText(f), ItemsText(items[1..]), last);
    }
  }

  lemma FileEnds(last: string)
    requires IsLastGap(last)
    ensures FormsAt(last) == Some(([], ""))
  {
    Gaps.SkipsLastGap(last, ';');
    hide IsLastGap;
  }

  // ----- what is read was written -----

  lemma UnitFound(s: string) returns (u: Unit, tail: string)
    requires StringAt(s).Some? && s[0] != '"'
    ensures s == UnitText(u) + tail && (u.Plain? ==> u.c != '"' && u.c != '\\') && |tail| < |s|
    ensures StringAt(s) == Prefixed([u.c], StringAt(tail))
  {
    u := if s[0] == '\\' then Escaped(s[1]) else Plain(s[0]);
    tail := s[|UnitText(u)|..];
    assert s == UnitText(u) + tail;
    UnitReads(u, tail);
  }

  lemma {:induction false} UnitsFound(s: string) returns (us: seq<Unit>)
    requires StringAt(s).Some?
    ensures s == UnitsText(us) + (['"'] + StringAt(s).value.1) && UnitsOk(us) && UnitsValue(us) == StringAt(s).value.0
    decreases |s|
  {
    if s[0] == '"' {
      us := [];
      assert s == ['"'] + s[1..];
    } else {
      var u, tail := UnitFound(s);
      hide StringAt, UnitText;
      var more := UnitsFound(tail);
      us := [u] + more;
      assert us[1..] == more;
      Assoc(UnitText(u), UnitsText(more), ['"'] + StringAt(tail).value.1);
    }
  }

  lemma {:induction false} AtomIsBare(s: string)
    ensures forall i :: 0 <= i < AtomLength(s) ==> !Ends(s[i])
    ensures AtomLength(s) < |s| ==> Ends(s[AtomLength(s)])
  {
    if s != "" && !EndsAtom(s[0]) {
      AtomIsBare(s[1..]);
      forall i | 0 <= i < AtomLength(s) ensures !Ends(s[i]) {
        assert i > 0 ==> s[i] == s[1..][i - 1];
      }
    }
  }

  lemma {:induction false} FormFound(s: string) returns (f: Form)
    requires TermAt(s).Some? && AfterGap(s) == s
    ensures var (t, rest) := TermAt(s).value; s == FormText(f) + rest && FormOk(f, rest) && Meaning(f) == t
    decreases |s|, 0
  {
    hide AfterGap, IsGap, ListAt, StringAt, ItemsText, ItemsOk, Meanings, UnitsText, UnitsValue, UnitsOk;
    assert s == [s[0]] + s[1..];
    if s[0] == '(' {
      var items, gap := ItemsFound(s[1..]);
      var rest := TermAt(s).value.1;
      f := Parens(items, gap);
      Assoc(gap, ")", rest);
      Assoc(ItemsText(items), gap + ")", rest);
      Assoc("(", ItemsText(items) + (gap + ")"), rest);
    } else if s[0] == '"' {
      var us := UnitsFound(s[1..]);
      var rest := TermAt(s).value.1;
      f := Quoted(us);
      Assoc(UnitsText(us), ['"'], rest);
      Assoc(['"'], UnitsText(us) + ['"'], rest);
    } else {
      var n := AtomLength(s);
      AtomIsBare(s);
      f := Bare(s[..n]);
      NotEnding(s);
      assert s == s[..n] + s[n..];
    }
  }

  lemma NotEnding(s: string)
    requires s != "" && AfterGap(s) == s && s[0] != '(' && s[0] != ')'
    ensures AtomLength(s) > 0
  {
  }

  lemma {:induction false} ItemsFound(s: string) returns (items: seq<Item>, gap: string)
    requires ListAt(s).Some?
    ensures var (ts, rest) := ListAt(s).value;
            && s == ItemsText(items) + (gap + (")" + rest)) && IsGap(gap) && ItemsOk(items, gap + (")" + rest))
            && Meanings(items) == ts
    decreases |s|, 1
  {
    hide IsGap, FormOk, FormText, Meaning, TermAt;
    var u := AfterGap(s);
    var g := GapFound(s);
    GapStops(s);
    hide AfterGap;
    assert u == [u[0]] + u[1..];
    if u[0] == ')' {
      items, gap := [], g;
      assert s == "" + (g + (")" + u[1..]));
    } else {
      var f := FormFound(u);
      var after := TermAt(u).value.1;
      var rest := ListAt(s).value.1;
      var more;
      more, gap := ItemsFound(after);
      items := [Item(g, f)] + more;
      assert items[1..] == more;
      var end := gap + (")" + rest);
      Assoc(FormText(f), ItemsText(more), end);
      Assoc(g, FormText(f) + ItemsText(more), end);
      assert [TermAt(u).value.0] + ListAt(after).value.0 == ListAt(s).value.0;
    }
  }

  lemma GapStops(s: string)
    ensures AfterGap(AfterGap(s)) == AfterGap(s)
  {
  }

  lemma {:induction false} FileFound(s: string) returns (items: seq<Item>, last: string)
    requires FormsAt(s).Some?
    ensures s == ItemsText(items) + last && IsLastGap(last) && ItemsOk(items, last) && Meanings(items) == FormsAt(s).value.0
    decreases |s|
  {
    hide IsGap, IsLastGap, FormOk, FormText, Meaning, TermAt;
    var u := AfterGap(s);
    var g := GapFound(s);
    GapStops(s);
    hide AfterGap;
    if u == "" {
      items, last := [], g;
      assert s == "" + g;
    } else {
      var f := FormFound(u);
      var after := TermAt(u).value.1;
      var more;
      more, last := FileFound(after);
      items := [Item(g, f)] + more;
      assert items[1..] == more;
      Assoc(FormText(f), ItemsText(more), last);
      Assoc(g, FormText(f) + ItemsText(more), last);
      assert [TermAt(u).value.0] + FormsAt(after).value.0 == FormsAt(s).value.0;
    }
  }

  /** A file is read as given terms if and only if it is written as forms that stand for them. */
  lemma FormsIff(content: string, ts: seq<Term>)
    ensures Forms(content) == Some(ts) <==> exists items, last :: Writes(content, items, last, ts)
  {
    hide FormsAt, ItemsText, ItemsOk, IsLastGap, Meanings;
    if Forms(content) == Some(ts) {
      var items, last := FileFound(content);
      assert Writes(content, items, last, ts);
    }
    if items, last :| Writes(content, items, last, ts) {
      FileReads(items, last);
    }
  }
}
