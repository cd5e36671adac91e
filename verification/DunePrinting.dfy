/** Printing dune terms and reading them back. */
module DunePrinting {
  import opened Text
  import opened Lists
  import opened DuneForms

  // ----- the printer of the repository -----

  function Joined(values: seq<string>): string {
    if values == [] then ""
    else if |values| == 1 then values[0]
    else values[0] + (" " + Joined(values[1..]))
  }

  /** An atom prints as it is; a list drops children that print as nothing. */
  function TermText(t: Term): string
    decreases t
  {
    if t.children == [] then t.atom else "(" + (Joined(ChildTexts(t.children)) + ")")
  }

  function ChildTexts(ts: seq<Term>): seq<string>
    decreases ts
  {
    if ts == [] then []
    else
      var text := TermText(ts[0]);
      (if text == "" then [] else [text]) + ChildTexts(ts[1..])
  }

  // ----- both ways to print: as above, or with every atom quoted -----

  /** Quotes and backslashes behind a backslash, other characters as they are. */
  function Escaped(value: string): string {
    if value == "" then ""
    else (if value[0] == '"' || value[0] == '\\' then ['\\', value[0]] else [value[0]]) + Escaped(value[1..])
  }

  function AtomText(atom: string, quoting: bool): string {
    if quoting then ['"'] + (Escaped(atom) + ['"']) else atom
  }

  function Shown(t: Term, quoting: bool): string
    decreases t
  {
    if t.children == [] then AtomText(t.atom, quoting) else "(" + (ShownList(t.children, quoting) + ")")
  }

  function ShownList(ts: seq<Term>, quoting: bool): string
    decreases ts
  {
    if ts == [] then ""
    else Shown(ts[0], quoting) + (if |ts| == 1 then "" else " " + ShownList(ts[1..], quoting))
  }

  predicate PlainAtom(atom: string) {
    atom != "" && atom[0] != '"' && forall i :: 0 <= i < |atom| ==> !EndsAtom(atom[i])
  }

  /** Lists carry no atom; unless atoms are quoted they are plain and no list is empty. */
  predicate Printable(t: Term, quoting: bool)
    decreases t
  {
    if t.children == [] then quoting || PlainAtom(t.atom) else t.atom == "" && AllPrintable(t.children, quoting)
  }

  predicate AllPrintable(ts: seq<Term>, quoting: bool)
    decreases ts
  {
    ts != [] ==> Printable(ts[0], quoting) && AllPrintable(ts[1..], quoting)
  }

  // ----- reading back -----

  lemma {:induction false} ReadsAtom(atom: string, rest: string)
    requires forall i :: 0 <= i < |atom| ==> !EndsAtom(atom[i])
    requires rest == "" || EndsAtom(rest[0])
    ensures AtomLength(atom + rest) == |atom|
  {
    if atom == "" {
      assert atom + rest == rest;
    } else {
      assert (atom + rest)[1..] == atom[1..] + rest;
      ReadsAtom(atom[1..], rest);
    }
  }

  lemma {:induction false} ReadsEscaped(value: string, rest: string)
    ensures StringAt(Escaped(value) + (['"'] + rest)) == Some((value, rest))
  {
    var tail := ['"'] + rest;
    if value == "" {
      assert Escaped(value) + tail == tail && tail[1..] == rest;
    } else {
      var more := Escaped(value[1..]) + tail;
      ReadsEscaped(value[1..], rest);
      assert value == [value[0]] + value[1..];
      if value[0] == '"' || value[0] == '\\' {
        assert Escaped(value) + tail == ['\\', value[0]] + more;
        assert (['\\', value[0]] + more)[2..] == more;
      } else {
        assert Escaped(value) + tail == [value[0]] + more;
        assert ([value[0]] + more)[1..] == more;
      }
    }
  }

  lemma AtomReads(atom: string, quoting: bool, rest: string)
    requires (quoting || PlainAtom(atom)) && (rest == "" || EndsAtom(rest[0]))
    ensures TermAt(AtomText(atom, quoting) + rest) == Some((Term(atom, []), rest))
  {
    var s := AtomText(atom, quoting) + rest;
    if quoting {
      Assoc(['"'], Escaped(atom) + ['"'], rest);
      Assoc(Escaped(atom), ['"'], rest);
      var inside := Escaped(atom) + (['"'] + rest);
      assert s == ['"'] + inside && s[1..] == inside;
      ReadsEscaped(atom, rest);
      hide StringAt;
      assert AfterGap(s) == s;
    } else {
      ReadsAtom(atom, rest);
      assert s[0] == atom[0] && !EndsAtom(atom[0]);
      assert AfterGap(s) == s;
      assert s[..|atom|] == atom && s[|atom|..] == rest;
    }
  }

  lemma SkipsBlank(s: string)
    ensures AfterGap(" " + s) == AfterGap(s)
  {
    assert (" " + s)[1..] == s;
  }

  /** A gap before a list's next child changes nothing. */
  lemma ListSkips(s: string)
    ensures ListAt(" " + s) == ListAt(s)
  {
    SkipsBlank(s);
    hide AfterGap, TermAt;
  }

  lemma ListEnds(rest: string)
    ensures ListAt(")" + rest) == Some(([], rest))
  {
    var s := ")" + rest;
    assert AfterGap(s) == s && s[1..] == rest;
  }

  /** A printed term starts a term: it is not a gap and closes no list. */
  lemma ShownStarts(t: Term, quoting: bool, rest: string)
    requires Printable(t, quoting)
    ensures var s := Shown(t, quoting) + rest; s != "" && s[0] != ')' && AfterGap(s) == s
  {
  }

  lemma ListContinues(s: string, child: Term, rest: string)
    requires s != "" && s[0] != ')' && AfterGap(s) == s && TermAt(s) == Some((child, rest))
    ensures ListAt(s) == Prefixed([child], ListAt(rest))
  {
  }

  lemma ListOpens(inside: string, children: seq<Term>, rest: string)
    requires ListAt(inside) == Some((children, rest))
    ensures TermAt("(" + inside) == Some((Term("", children), rest))
  {
    var s := "(" + inside;
    assert AfterGap(s) == s && s[1..] == inside;
    hide ListAt;
  }

  lemma {:induction false} TermReads(t: Term, quoting: bool, rest: string)
    requires Printable(t, quoting) && (rest == "" || EndsAtom(rest[0]))
    ensures TermAt(Shown(t, quoting) + rest) == Some((t, rest))
    decreases t
  {
    if t.children == [] {
      AtomReads(t.atom, quoting, rest);
    } else {
      hide TermAt;
      ListReads(t.children, quoting, rest);
      ListOpens(ShownList(t.children, quoting) + (")" + rest), t.children, rest);
      Assoc("(", ShownList(t.children, quoting) + ")", rest);
      Assoc(ShownList(t.children, quoting), ")", rest);
    }
  }

  lemma {:induction false} ListReads(ts: seq<Term>, quoting: bool, rest: string)
    requires AllPrintable(ts, quoting)
    ensures ListAt(ShownList(ts, quoting) + (")" + rest)) == Some((ts, rest))
    decreases ts
  {
    hide TermAt, ListAt, AfterGap, Shown, Printable;
    var end := ")" + rest;
    if ts == [] {
      ListEnds(rest);
      assert ShownList(ts, quoting) + end == end;
    } else {
      var more := if |ts| == 1 then "" else " " + ShownList(ts[1..], quoting);
      var after := more + end;
      ListReads(ts[1..], quoting, rest);
      if |ts| == 1 {
        assert ts[1..] == [] && after == end && ShownList([], quoting) + end == end;
      } else {
        Assoc(" ", ShownList(ts[1..], quoting), end);
        ListSkips(ShownList(ts[1..], quoting) + end);
      }
      assert EndsAtom(after[0]);
      TermReads(ts[0], quoting, after);
      ShownStarts(ts[0], quoting, after);
      Assoc(Shown(ts[0], quoting), more, end);
      ListContinues(Shown(ts[0], quoting) + after, ts[0], after);
      assert ts == [ts[0]] + ts[1..];
    }
  }

  // ----- the repository's printer -----

  lemma {:induction false} TextIsShown(t: Term)
    requires Printable(t, false)
    ensures TermText(t) == Shown(t, false) && TermText(t) != ""
    decreases t
  {
    if t.children != [] {
      TextsAreShown(t.children);
    }
  }

  lemma {:induction false} TextsAreShown(ts: seq<Term>)
    requires AllPrintable(ts, false)
    ensures Joined(ChildTexts(ts)) == ShownList(ts, false) && |ChildTexts(ts)| == |ts|
    decreases ts
  {
    if ts != [] {
      hide TermText, Shown, Printable;
      TextIsShown(ts[0]);
      TextsAreShown(ts[1..]);
      assert ChildTexts(ts) == [TermText(ts[0])] + ChildTexts(ts[1..]);
      assert ChildTexts(ts)[1..] == ChildTexts(ts[1..]);
      if |ts| == 1 {
        assert ts[1..] == [];
        assert TermText(ts[0]) + "" == TermText(ts[0]);
      }
    }
  }

  lemma OneForm(s: string, t: Term)
    requires TermAt(s) == Some((t, "")) && s != "" && AfterGap(s) == s
    ensures Forms(s) == Some([t])
  {
    assert FormsAt("") == Some(([], ""));
    assert [t] + [] == [t];
    hide TermAt;
  }

  lemma PrintableReadsBack(t: Term)
    requires Printable(t, false)
    ensures Forms(TermText(t)) == Some([t])
  {
    var none: string := "";
    TextIsShown(t);
    TermReads(t, false, none);
    ShownStarts(t, false, none);
    hide Forms, TermAt, Shown, Printable, AfterGap;
    assert Shown(t, false) + none == Shown(t, false);
    OneForm(Shown(t, false), t);
  }

  /** With quoted atoms every term the reader can produce survives, whatever characters its atoms hold. */
  lemma ReadingUndoesQuoting(t: Term)
    requires Printable(t, true)
    ensures Forms(Shown(t, true)) == Some([t])
  {
    var none: string := "";
    TermReads(t, true, none);
    ShownStarts(t, true, none);
    hide Forms, TermAt, Shown, Printable, AfterGap;
    assert Shown(t, true) + none == Shown(t, true);
    OneForm(Shown(t, true), t);
  }

  /** The reader produces no other terms. */
  lemma {:induction false} TermsRead(s: string)
    requires TermAt(s).Some?
    ensures Printable(TermAt(s).value.0, true)
    decreases |s|, 0
  {
    var t := AfterGap(s);
    if t[0] == '(' {
      ListsRead(t[1..]);
    }
  }

  lemma {:induction false} ListsRead(s: string)
    requires ListAt(s).Some?
    ensures AllPrintable(ListAt(s).value.0, true)
    decreases |s|, 1
  {
    var t := AfterGap(s);
    if t[0] != ')' {
      TermsRead(t);
      ListsRead(TermAt(t).value.1);
      hide TermAt, AfterGap, Printable;
      var child, more := TermAt(t).value.0, ListAt(TermAt(t).value.1).value.0;
      assert ([child] + more)[1..] == more;
    }
  }

  // ----- what printing without quotes loses -----

  /** How many quotes and opening parentheses a text holds. */
  function Weight(s: string): nat {
    if s == "" then 0 else (if s[0] == '"' || s[0] == '(' then 1 else 0) + Weight(s[1..])
  }

  /** How many of them the printer writes for a term. */
  function TermWeight(t: Term): nat
    decreases t
  {
    if t.children == [] then Weight(t.atom) else 1 + WeightOfAll(t.children)
  }

  function WeightOfAll(ts: seq<Term>): nat
    decreases ts
  {
    if ts == [] then 0 else TermWeight(ts[0]) + WeightOfAll(ts[1..])
  }

  lemma {:induction false} WeightAppend(a: string, b: string)
    ensures Weight(a + b) == Weight(a) + Weight(b)
  {
    if a == "" {
      assert a + b == b;
    } else {
      assert (a + b)[1..] == a[1..] + b;
      WeightAppend(a[1..], b);
    }
  }

  lemma {:induction false} TextWeight(t: Term)
    ensures Weight(TermText(t)) == TermWeight(t)
    decreases t
  {
    if t.children != [] {
      TextsWeight(t.children);
      var inside := Joined(ChildTexts(t.children));
      WeightAppend("(", inside + ")");
      WeightAppend(inside, ")");
    }
  }

  lemma {:induction false} TextsWeight(ts: seq<Term>)
    ensures Weight(Joined(ChildTexts(ts))) == WeightOfAll(ts)
    decreases ts
  {
    if ts != [] {
      TextWeight(ts[0]);
      TextsWeight(ts[1..]);
      hide TermText, TermWeight;
      var text, more := TermText(ts[0]), ChildTexts(ts[1..]);
      if text == "" {
        assert [] + more == more;
      } else {
        assert ([text] + more)[1..] == more;
        WeightAppend(text, " " + Joined(more));
        WeightAppend(" ", Joined(more));
      }
    }
  }

  lemma {:induction false} LineWeight(s: string)
    ensures Weight(AfterLine(s)) <= Weight(s)
  {
    if s != "" && s[0] != '\n' {
      LineWeight(s[1..]);
    }
  }

  lemma {:induction false} GapWeight(s: string)
    ensures Weight(AfterGap(s)) <= Weight(s)
    decreases |s|
  {
    if s != "" && IsSpace(s[0]) {
      GapWeight(s[1..]);
    } else if s != "" && s[0] == ';' {
      LineWeight(s);
      GapWeight(AfterLine(s));
    }
  }

  /** A string costs its closing quote on top of what its value holds. */
  lemma {:induction false} StringWeight(s: string)
    requires StringAt(s).Some?
    ensures Weight(s) >= Weight(StringAt(s).value.0) + 1 + Weight(StringAt(s).value.1)
    decreases |s|
  {
    if s[0] != '"' {
      var c, tail := if s[0] == '\\' then s[1] else s[0], if s[0] == '\\' then s[2..] else s[1..];
      StringWeight(tail);
      WeightAppend([c], StringAt(tail).value.0);
      assert StringAt(s) == Prefixed([c], StringAt(tail));
      hide StringAt;
      assert s[0] == '\\' ==> s[1..][1..] == s[2..];
    }
  }

  lemma {:induction false} AtomIsPlain(s: string)
    ensures forall i :: 0 <= i < AtomLength(s) ==> !EndsAtom(s[i])
  {
    if s != "" && !EndsAtom(s[0]) {
      AtomIsPlain(s[1..]);
      forall i | 0 <= i < AtomLength(s)
        ensures !EndsAtom(s[i])
      {
        assert i > 0 ==> s[i] == s[1..][i - 1];
      }
    }
  }

  /** No term is read from less than the printer writes for it, and an unprintable one only from more. */
  lemma {:induction false} TermCosts(s: string)
    requires TermAt(s).Some?
    ensures var (t, rest) := TermAt(s).value;
            Weight(s) >= TermWeight(t) + Weight(rest) + if Printable(t, false) then 0 else 1
    decreases |s|, 0
  {
    var u := AfterGap(s);
    GapWeight(s);
    hide StringAt, AfterGap, ListAt;
    if u[0] == '(' {
      ListCosts(u[1..]);
    } else if u[0] == '"' {
      StringWeight(u[1..]);
    } else {
      var n := AtomLength(u);
      AtomIsPlain(u);
      hide AtomLength;
      assert u[..n] + u[n..] == u;
      WeightAppend(u[..n], u[n..]);
      assert u[..n][0] == u[0];
    }
  }

  lemma {:induction false} ListCosts(s: string)
    requires ListAt(s).Some?
    ensures var (ts, rest) := ListAt(s).value;
            Weight(s) >= WeightOfAll(ts) + Weight(rest) + if AllPrintable(ts, false) then 0 else 1
    decreases |s|, 1
  {
    var u := AfterGap(s);
    GapWeight(s);
    if u[0] != ')' {
      TermCosts(u);
      ListCosts(TermAt(u).value.1);
      hide TermAt, AfterGap, Printable, TermWeight, Weight;
      var child, more := TermAt(u).value.0, ListAt(TermAt(u).value.1).value.0;
      assert ([child] + more)[1..] == more;
    }
  }

  /** A term survives the printer and the reader if and only if it is of plain, non-empty atoms and without empty lists. */
  lemma ReadingUndoesText(t: Term)
    ensures Forms(TermText(t)) == Some([t]) <==> Printable(t, false)
  {
    if Printable(t, false) {
      PrintableReadsBack(t);
    } else if Forms(TermText(t)) == Some([t]) {
      var u := AfterGap(TermText(t));
      GapWeight(TermText(t));
      OnlyForm(TermText(t), t);
      TermCosts(u);
      TextWeight(t);
      hide TermAt, AfterGap, Printable, TermWeight, Weight, TermText, Forms;
      assert false;
    }
  }

  lemma OnlyForm(s: string, t: Term)
    requires Forms(s) == Some([t])
    ensures TermAt(AfterGap(s)).Some? && TermAt(AfterGap(s)).value.0 == t
  {
    hide TermAt, AfterGap;
    var first := TermAt(AfterGap(s));
    assert ([first.value.0] + FormsAt(first.value.1).value.0)[0] == first.value.0;
  }
}
