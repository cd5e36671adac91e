/** How rebar.config files are written: concrete syntax with any gaps, exactly what the reader reads. */
module ErlangWriting {
  import opened Text
  import opened ErlangTerms
  import Gaps

  ghost predicate IsGap(g: string) { Gaps.IsGap(g, '%') }

  /** A comment at the end of a file needs no line feed. */
  ghost predicate IsLastGap(g: string) { Gaps.IsLastGap(g, '%') }

  lemma GapFound(s: string) returns (g: string)
    ensures s == g + AfterGap(s) && (if AfterGap(s) == "" then IsLastGap(g) else IsGap(g))
  {
    g := Gaps.GapFound(s, '%');
  }

  lemma SkipsGap(g: string, s: string)
    requires IsGap(g)
    ensures AfterGap(g + s) == AfterGap(s)
  {
    Gaps.SkipsGap(g, s, '%');
  }

  // ----- concrete syntax -----

  /** A character of a quoted value, with or without a backslash before it. */
  datatype Unit = Plain(c: char) | Escaped(c: char)

  datatype Form =
    | Bare(text: string)
    | Quoted(mark: char, units: seq<Unit>)
    | Binary(before: string, units: seq<Unit>, after: string)
    | Braces(body: Body)
    | Brackets(body: Body)

  /** What stands between brackets: values with commas behind them; then nothing, a last value, or a tail. */
  datatype Body =
    | End(gap: string)
    | Final(gap: string, form: Form, after: string)
    | More(gap: string, form: Form, after: string, rest: Body)
    | Tail(gap: string, inner: string, form: Form, after: string)

  /** Terms with full stops behind them; then nothing or a last term. */
  datatype File = Done(last: string) | Lone(gap: string, form: Form, last: string)
                | Next(gap: string, form: Form, after: string, rest: File)

  /** The characters that a bare atom does not go beyond. */
  predicate Ends(c: char) {
    c in {' ', '\t', '\n', '\r', '{', '}', '[', ']', ',', '.', '%', '"', '\''}
  }

  function UnitText(u: Unit): string { if u.Plain? then [u.c] else ['\\', u.c] }

  function UnitValue(u: Unit): char {
    match u
    case Escaped('n') => '\n'
    case Escaped('r') => '\r'
    case Escaped('t') => '\t'
    case _ => u.c
  }

  function UnitsText(us: seq<Unit>): string { if us == [] then "" else UnitText(us[0]) + UnitsText(us[1..]) }

  function UnitsValue(us: seq<Unit>): string { if us == [] then "" else [UnitValue(us[0])] + UnitsValue(us[1..]) }

  predicate UnitOk(u: Unit, mark: char) { u.Plain? ==> u.c != mark && u.c != '\\' }

  predicate UnitsOk(us: seq<Unit>, mark: char) { us != [] ==> UnitOk(us[0], mark) && UnitsOk(us[1..], mark) }

  function QuotedText(mark: char, us: seq<Unit>): string { [mark] + (UnitsText(us) + [mark]) }

  function FormText(f: Form): string
    decreases f
  {
    match f
    case Bare(text) => text
    case Quoted(mark, units) => QuotedText(mark, units)
    case Binary(before, units, after) => "<<" + (before + (QuotedText('"', units) + (after + ">>")))
    case Braces(body) => "{" + BodyText(body, '}')
    case Brackets(body) => "[" + BodyText(body, ']')
  }

  function BodyText(b: Body, close: char): string
    decreases b
  {
    match b
    case End(gap) => gap + [close]
    case Final(gap, form, after) => gap + (FormText(form) + (after + [close]))
    case More(gap, form, after, rest) => gap + (FormText(form) + (after + ("," + BodyText(rest, close))))
    case Tail(gap, inner, form, after) => gap + ("|" + (inner + (FormText(form) + (after + [close]))))
  }

  ghost predicate FormOk(f: Form, rest: string)
    decreases f
  {
    match f
    case Bare(text) =>
      text != "" && !("<<" <= text) && (forall i :: 0 <= i < |text| ==> !Ends(text[i])) && (rest == "" || Ends(rest[0]))
    case Quoted(mark, units) => (mark == '"' || mark == '\'') && UnitsOk(units, mark)
    case Binary(before, units, after) => IsGap(before) && UnitsOk(units, '"') && IsGap(after)
    case Braces(body) => BodyOk(body, false, rest)
    case Brackets(body) => BodyOk(body, true, rest)
  }

  /** In a list a bare value does not start with a bar, which would announce the tail. */
  ghost predicate BodyOk(b: Body, list: bool, rest: string)
    decreases b
  {
    var close := if list then ']' else '}';
    match b
    case End(gap) => IsGap(gap)
    case Final(gap, form, after) =>
      && IsGap(gap) && IsGap(after) && FormOk(form, after + ([close] + rest))
      && (list && form.Bare? && form.text != "" ==> form.text[0] != '|')
    case More(gap, form, after, more) =>
      && IsGap(gap) && IsGap(after) && FormOk(form, after + ("," + (BodyText(more, close) + rest)))
      && (list && form.Bare? && form.text != "" ==> form.text[0] != '|') && BodyOk(more, list, rest)
    case Tail(gap, inner, form, after) =>
      list && IsGap(gap) && IsGap(inner) && IsGap(after) && FormOk(form, after + ([close] + rest))
  }

  function Meaning(f: Form): Term
    decreases f
  {
    match f
    case Bare(text) => Atom(text)
    case Quoted(mark, units) => if mark == '"' then Str(UnitsValue(units)) else Atom(UnitsValue(units))
    case Binary(_, units, _) => Str(UnitsValue(units))
    case Braces(body) => Tuple(Values(body))
    case Brackets(body) => List(Values(body))
  }

  function Values(b: Body): seq<Term>
    decreases b
  {
    match b
    case End(_) => []
    case Final(_, form, _) => [Meaning(form)]
    case More(_, form, _, rest) => [Meaning(form)] + Values(rest)
    case Tail(_, _, form, _) => [Meaning(form)]
  }

  function FileText(f: File): string {
    match f
    case Done(last) => last
    case Lone(gap, form, last) => gap + (FormText(form) + last)
    case Next(gap, form, after, rest) => gap + (FormText(form) + (after + ("." + FileText(rest))))
  }

  ghost predicate FileOk(f: File) {
    match f
    case Done(last) => IsLastGap(last)
    case Lone(gap, form, last) => IsGap(gap) && FormOk(form, last) && IsLastGap(last)
    case Next(gap, form, after, rest) => IsGap(gap) && IsGap(after) && FormOk(form, after + ("." + FileText(rest))) && FileOk(rest)
  }

  function FileTerms(f: File): seq<Term> {
    match f
    case Done(_) => []
    case Lone(_, form, _) => [Meaning(form)]
    case Next(_, form, _, rest) => [Meaning(form)] + FileTerms(rest)
  }

  // ----- quoted values -----

  lemma UnitReads(u: Unit, mark: char, rest: string)
    requires UnitOk(u, mark) && mark != '\\'
    ensures QuotedAt(UnitText(u) + rest, mark) == Prefixed([UnitValue(u)], QuotedAt(rest, mark))
  {
    var s := UnitText(u) + rest;
    if u.Plain? {
      assert s[1..] == rest;
    } else {
      assert s[2..] == rest;
    }
  }

  lemma {:induction false} UnitsRead(us: seq<Unit>, mark: char, rest: string)
    requires UnitsOk(us, mark) && mark != '\\'
    ensures QuotedAt(UnitsText(us) + ([mark] + rest), mark) == Some((UnitsValue(us), rest))
  {
    var tail := [mark] + rest;
    if us == [] {
      assert UnitsText(us) + tail == tail && tail[1..] == rest;
    } else {
      UnitsRead(us[1..], mark, rest);
      Assoc(UnitText(us[0]), UnitsText(us[1..]), tail);
      UnitReads(us[0], mark, UnitsText(us[1..]) + tail);
      hide QuotedAt, UnitText, UnitValue;
    }
  }

  lemma UnitFound(s: string, mark: char) returns (u: Unit, tail: string)
    requires QuotedAt(s, mark).Some? && s[0] != mark && mark != '\\'
    ensures s == UnitText(u) + tail && UnitOk(u, mark) && |tail| < |s|
    ensures QuotedAt(s, mark) == Prefixed([UnitValue(u)], QuotedAt(tail, mark))
  {
    u := if s[0] == '\\' then Escaped(s[1]) else Plain(s[0]);
    tail := s[|UnitText(u)|..];
    assert s == UnitText(u) + tail;
    UnitReads(u, mark, tail);
  }

  lemma {:induction false} UnitsFound(s: string, mark: char) returns (us: seq<Unit>)
    requires QuotedAt(s, mark).Some? && mark != '\\'
    ensures s == UnitsText(us) + ([mark] + QuotedAt(s, mark).value.1) && UnitsOk(us, mark)
    ensures UnitsValue(us) == QuotedAt(s, mark).value.0
    decreases |s|
  {
    if s[0] == mark {
      us := [];
      assert s == [mark] + s[1..];
    } else {
      var u, tail := UnitFound(s, mark);
      hide QuotedAt, UnitText, UnitOk, UnitValue;
      var more := UnitsFound(tail, mark);
      us := [u] + more;
      assert us[1..] == more;
      Assoc(UnitText(u), UnitsText(more), [mark] + QuotedAt(tail, mark).value.1);
    }
  }

  lemma QuotedParts(mark: char, us: seq<Unit>, rest: string)
    ensures QuotedText(mark, us) + rest == [mark] + (UnitsText(us) + ([mark] + rest))
  {
    Assoc([mark], UnitsText(us) + [mark], rest);
    Assoc(UnitsText(us), [mark], rest);
  }

  // ----- what is written is read -----

  lemma {:induction false} BareLength(text: string, rest: string)
    requires forall i :: 0 <= i < |text| ==> !Ends(text[i])
    requires rest == "" || Ends(rest[0])
    ensures AtomLength(text + rest) == |text|
  {
    if text == "" {
      assert text + rest == rest;
    } else {
      assert (text + rest)[1..] == text[1..] + rest;
      BareLength(text[1..], rest);
    }
  }

  lemma BareReads(text: string, rest: string)
    requires FormOk(Bare(text), rest)
    ensures TermAt(text + rest) == Some((Atom(text), rest))
  {
    var s := text + rest;
    BareLength(text, rest);
    assert !Ends(text[0]) && s[0] == text[0] && AfterGap(s) == s;
    assert |text| > 1 ==> text[..2] == s[..2];
    assert |text| == 1 && rest != "" ==> s[1] == rest[0] && s[1] != '<';
    assert !("<<" <= s);
    hide AfterGap, ValuesAt, QuotedAt, BinaryAt, AtomLength, Ends;
    assert s[..|text|] == text && s[|text|..] == rest;
  }

  lemma QuotedReads(mark: char, us: seq<Unit>, rest: string)
    requires (mark == '"' || mark == '\'') && UnitsOk(us, mark)
    ensures TermAt(QuotedText(mark, us) + rest) == Some((Meaning(Quoted(mark, us)), rest))
  {
    QuotedParts(mark, us, rest);
    var inside := UnitsText(us) + ([mark] + rest);
    var s := [mark] + inside;
    assert s[1..] == inside && AfterGap(s) == s;
    UnitsRead(us, mark, rest);
    hide QuotedAt, UnitsText, UnitsValue, ValuesAt, BinaryAt, AfterGap;
  }

  lemma BinaryReads(before: string, us: seq<Unit>, after: string, rest: string)
    requires IsGap(before) && UnitsOk(us, '"') && IsGap(after)
    ensures TermAt(FormText(Binary(before, us, after)) + rest) == Some((Str(UnitsValue(us)), rest))
  {
    hide UnitsText, UnitsValue, IsGap;
    var end := after + (">>" + rest);
    var inside := before + (QuotedText('"', us) + end);
    Assoc("<<", before + (QuotedText('"', us) + (after + ">>")), rest);
    Assoc(before, QuotedText('"', us) + (after + ">>"), rest);
    Assoc(QuotedText('"', us), after + ">>", rest);
    Assoc(after, ">>", rest);
    InsideReads(before, us, after, rest);
    var s := "<<" + inside;
    assert s[2..] == inside && AfterGap(s) == s && HasPrefix(s, "<<");
    hide BinaryAt, AfterGap;
  }

  lemma InsideReads(before: string, us: seq<Unit>, after: string, rest: string)
    requires IsGap(before) && UnitsOk(us, '"') && IsGap(after)
    ensures BinaryAt(before + (QuotedText('"', us) + (after + (">>" + rest)))) == Some((Str(UnitsValue(us)), rest))
  {
    var end := after + (">>" + rest);
    var t := QuotedText('"', us) + end;
    SkipsGap(before, t);
    SkipsGap(after, ">>" + rest);
    hide IsGap;
    QuotedParts('"', us, end);
    assert t[1..] == UnitsText(us) + (['"'] + end) && AfterGap(t) == t;
    UnitsRead(us, '"', end);
    hide QuotedAt, UnitsText, UnitsValue;
    assert AfterGap(">>" + rest) == ">>" + rest && (">>" + rest)[2..] == rest;
  }

  lemma CollectionReads(list: bool, inside: string, values: seq<Term>, rest: string)
    requires ValuesAt(inside, if list then ']' else '}') == Some((values, rest))
    ensures TermAt((if list then "[" else "{") + inside) == Some((if list then List(values) else Tuple(values), rest))
  {
    var s := (if list then "[" else "{") + inside;
    assert AfterGap(s) == s && s[1..] == inside && !HasPrefix(s, "<<");
    hide ValuesAt, AfterGap;
  }

  lemma Starts(f: Form, rest: string)
    requires FormOk(f, rest)
    ensures var s := FormText(f) + rest;
            s != "" && AfterGap(s) == s && s[0] != '}' && s[0] != ']' && (s[0] == '|' ==> f.Bare? && f.text != "" && f.text[0] == '|')
  {
    if f.Bare? { assert !Ends(f.text[0]); }
  }

  lemma ValuesSkip(g: string, s: string, close: char)
    requires IsGap(g)
    ensures ValuesAt(g + s, close) == ValuesAt(s, close)
  {
    SkipsGap(g, s);
    hide AfterGap, ElementAt, TailAt, IsGap;
  }

  lemma ValuesEnd(rest: string, close: char)
    requires close == '}' || close == ']'
    ensures ValuesAt([close] + rest, close) == Some(([], rest))
  {
    var s := [close] + rest;
    assert AfterGap(s) == s && s[1..] == rest;
  }

  /** One more value, after which reading resumes at `next`. */
  lemma ValueContinues(s: string, t: Term, after: string, next: string, close: char)
    requires s != "" && AfterGap(s) == s && s[0] != '}' && s[0] != ']' && (close == ']' ==> s[0] != '|')
    requires close == '}' || close == ']'
    requires TermAt(s) == Some((t, after)) && Resumes(AfterGap(after), close) == Some(next)
    ensures ValuesAt(s, close) == Prefixed([t], ValuesAt(next, close))
  {
    hide AfterGap, TermAt, Resumes;
  }

  lemma ResumesAtClose(g: string, rest: string, close: char)
    requires IsGap(g) && (close == '}' || close == ']')
    ensures Resumes(AfterGap(g + ([close] + rest)), close) == Some([close] + rest)
  {
    SkipsGap(g, [close] + rest);
    hide IsGap;
  }

  lemma ResumesAtComma(g: string, rest: string, close: char)
    requires IsGap(g) && (close == '}' || close == ']')
    ensures Resumes(AfterGap(g + ("," + rest)), close) == Some(rest)
  {
    SkipsGap(g, "," + rest);
    assert ("," + rest)[1..] == rest;
    hide IsGap;
  }

  lemma TailReads(inner: string, s: string, t: Term, after: string, rest: string)
    requires IsGap(inner) && IsGap(after) && AfterGap(s) == s && TermAt(s) == Some((t, after + ("]" + rest)))
    ensures ValuesAt("|" + (inner + s), ']') == Some(([t], rest))
  {
    var u := "|" + (inner + s);
    assert AfterGap(u) == u && u[1..] == inner + s;
    SkipsGap(inner, s);
    TermSkips(inner + s);
    SkipsGap(after, "]" + rest);
    assert AfterGap("]" + rest) == "]" + rest && ("]" + rest)[1..] == rest;
    hide AfterGap, TermAt, IsGap, ElementAt;
    assert TermAt(inner + s) == TermAt(s) by { TermSkips(s); }
  }

  lemma {:induction false} FormReads(f: Form, rest: string)
    requires FormOk(f, rest)
    ensures TermAt(FormText(f) + rest) == Some((Meaning(f), rest))
    decreases f
  {
    match f
    case Bare(text) => BareReads(text, rest);
    case Quoted(mark, units) => QuotedReads(mark, units, rest);
    case Binary(before, units, after) => BinaryReads(before, units, after, rest);
    case Braces(body) =>
      hide TermAt, ValuesAt, BodyOk, BodyText, Values;
      BodyReads(body, false, rest);
      CollectionReads(false, BodyText(body, '}') + rest, Values(body), rest);
      Assoc("{", BodyText(body, '}'), rest);
    case Brackets(body) =>
      hide TermAt, ValuesAt, BodyOk, BodyText, Values;
      BodyReads(body, true, rest);
      CollectionReads(true, BodyText(body, ']') + rest, Values(body), rest);
      Assoc("[", BodyText(body, ']'), rest);
  }

  lemma {:induction false} BodyReads(b: Body, list: bool, rest: string)
    requires BodyOk(b, list, rest)
    ensures ValuesAt(BodyText(b, if list then ']' else '}') + rest, if list then ']' else '}') == Some((Values(b), rest))
    decreases b
  {
    hide TermAt, ValuesAt, AfterGap, IsGap, FormOk, FormText, Meaning, Resumes;
    var close := if list then ']' else '}';
    match b
    case End(gap) =>
      Assoc(gap, [close], rest);
      ValuesSkip(gap, [close] + rest, close);
      ValuesEnd(rest, close);
    case Final(gap, form, after) =>
      var end := after + ([close] + rest);
      FormReads(form, end);
      Starts(form, end);
      ResumesAtClose(after, rest, close);
      ValueContinues(FormText(form) + end, Meaning(form), end, [close] + rest, close);
      ValuesEnd(rest, close);
      ValuesSkip(gap, FormText(form) + end, close);
      FinalText(gap, FormText(form), after, [close], rest);
      assert [Meaning(form)] + [] == [Meaning(form)];
    case More(gap, form, after, more) =>
      var next := BodyText(more, close) + rest;
      var end := after + ("," + next);
      FormReads(form, end);
      Starts(form, end);
      BodyReads(more, list, rest);
      ResumesAtComma(after, next, close);
      ValueContinues(FormText(form) + end, Meaning(form), end, next, close);
      ValuesSkip(gap, FormText(form) + end, close);
      FinalText(gap, FormText(form), after, "," + BodyText(more, close), rest);
      Assoc(",", BodyText(more, close), rest);
    case Tail(gap, inner, form, after) =>
      var end := after + ("]" + rest);
      FormReads(form, end);
      Starts(form, end);
      TailReads(inner, FormText(form) + end, Meaning(form), after, rest);
      ValuesSkip(gap, "|" + (inner + (FormText(form) + end)), close);
      FinalText(inner, FormText(form), after, "]", rest);
      Assoc("|", inner + (FormText(form) + (after + "]")), rest);
      Assoc(gap, "|" + (inner + (FormText(form) + (after + "]"))), rest);
  }

  lemma FinalText(a: string, b: string, c: string, d: string, rest: string)
    ensures (a + (b + (c + d))) + rest == a + (b + (c + (d + rest)))
  {
    Assoc(a, b + (c + d), rest);
    Assoc(b, c + d, rest);
    Assoc(c, d, rest);
  }

  lemma FileContinues(g: string, s: string, t: Term, after: string)
    requires IsGap(g) && s != "" && AfterGap(s) == s && TermAt(s) == Some((t, after))
    ensures AfterGap(after) == "" ==> TermsAt(g + s) == Some(([t], ""))
    ensures forall rest :: AfterGap(after) == "." + rest ==> TermsAt(g + s) == Prefixed([t], TermsAt(rest))
  {
    SkipsGap(g, s);
    hide IsGap, AfterGap, TermAt;
    forall rest | AfterGap(after) == "." + rest ensures TermsAt(g + s) == Prefixed([t], TermsAt(rest)) {
      assert ("." + rest)[1..] == rest;
    }
  }

  lemma {:induction false} FileReads(f: File)
    requires FileOk(f)
    ensures TermsAt(FileText(f)) == Some((FileTerms(f), ""))
  {
    hide TermAt, TermsAt, AfterGap, IsGap, IsLastGap, FormOk, FormText, Meaning;
    match f
    case Done(last) => FileEnds(last);
    case Lone(gap, form, last) =>
      FormReads(form, last);
      Starts(form, last);
      LastSkips(last);
      FileContinues(gap, FormText(form) + last, Meaning(form), last);
    case Next(gap, form, after, rest) =>
      var end := after + ("." + FileText(rest));
      FormReads(form, end);
      Starts(form, end);
      FileReads(rest);
      StopFollows(after, FileText(rest));
      FileContinues(gap, FormText(form) + end, Meaning(form), end);
  }

  lemma LastSkips(last: string)
    requires IsLastGap(last)
    ensures AfterGap(last) == ""
  {
    Gaps.SkipsLastGap(last, '%');
  }

  lemma FileEnds(last: string)
    requires IsLastGap(last)
    ensures TermsAt(last) == Some(([], ""))
  {
    LastSkips(last);
    hide IsLastGap;
  }

  lemma StopFollows(g: string, rest: string)
    requires IsGap(g)
    ensures AfterGap(g + ("." + rest)) == "." + rest
  {
    SkipsGap(g, "." + rest);
    hide IsGap;
  }

  // ----- what is read was written -----

  lemma {:induction false} AtomIsBare(s: string)
    ensures forall i :: 0 <= i < AtomLength(s) ==> !Ends(s[i])
    ensures AtomLength(s) < |s| ==> Ends(s[AtomLength(s)])
  {
    if s != "" && !EndsAtom(s[0]) {
      AtomIsBare(s[1..]);
      forall i | 0 <= i < AtomLength(s) ensures !Ends(s[i]) {
        assert i > 0 ==> s[i] == s[1..][i - 1];
      }
    }
  }

  lemma GapStops(s: string)
    ensures AfterGap(AfterGap(s)) == AfterGap(s)
  {
    GapTwice(s);
  }

  lemma QuotedFound(s: string) returns (f: Form)
    requires TermAt(s).Some? && AfterGap(s) == s && (s[0] == '"' || s[0] == '\'')
    ensures var (t, rest) := TermAt(s).value; s == FormText(f) + rest && FormOk(f, rest) && Meaning(f) == t && f.Quoted?
  {
    hide AfterGap, UnitsText, UnitsValue, UnitsOk, QuotedAt;
    assert s == [s[0]] + s[1..] && !("<<" <= s);
    var us := UnitsFound(s[1..], s[0]);
    f := Quoted(s[0], us);
    QuotedParts(s[0], us, TermAt(s).value.1);
  }

  lemma BinaryFound(s: string) returns (f: Form)
    requires TermAt(s).Some? && AfterGap(s) == s && "<<" <= s
    ensures var (t, rest) := TermAt(s).value; s == FormText(f) + rest && FormOk(f, rest) && Meaning(f) == t && f.Binary?
  {
    hide AfterGap, UnitsText, UnitsValue, UnitsOk, QuotedAt, IsGap;
    var inside := s[2..];
    assert s == "<<" + inside && BinaryAt(inside).Some?;
    var t := AfterGap(inside);
    var before := GapFound(inside);
    assert t == ['"'] + t[1..];
    var us := UnitsFound(t[1..], '"');
    var more := QuotedAt(t[1..], '"').value.1;
    var after := GapFound(more);
    var u := AfterGap(more);
    var rest := u[2..];
    assert u == ">>" + rest;
    f := Binary(before, us, after);
    QuotedParts('"', us, more);
    FinalText(before, QuotedText('"', us), after, ">>", rest);
    Assoc("<<", before + (QuotedText('"', us) + (after + ">>")), rest);
  }

  lemma BareFound(s: string) returns (f: Form)
    requires TermAt(s).Some? && AfterGap(s) == s && !("<<" <= s) && s[0] !in {'{', '[', '"', '\''}
    ensures var (t, rest) := TermAt(s).value; s == FormText(f) + rest && FormOk(f, rest) && Meaning(f) == t && f.Bare?
  {
    hide AfterGap, ValuesAt, QuotedAt, BinaryAt;
    var n := AtomLength(s);
    AtomIsBare(s);
    hide AtomLength, Ends;
    f := Bare(s[..n]);
    assert s == s[..n] + s[n..];
    assert "<<" <= s[..n] ==> "<<" <= s;
  }

  lemma {:induction false} FormFound(s: string) returns (f: Form)
    requires TermAt(s).Some? && AfterGap(s) == s
    ensures var (t, rest) := TermAt(s).value; s == FormText(f) + rest && FormOk(f, rest) && Meaning(f) == t
    decreases |s|, 0
  {
    hide AfterGap, IsGap, ValuesAt, BodyText, BodyOk, Values;
    assert s != "" && s == [s[0]] + s[1..];
    if "<<" <= s {
      f := BinaryFound(s);
    } else if s[0] == '{' {
      var body := BodyFound(s[1..], false);
      f := Braces(body);
      Assoc("{", BodyText(body, '}'), TermAt(s).value.1);
    } else if s[0] == '[' {
      var body := BodyFound(s[1..], true);
      f := Brackets(body);
      Assoc("[", BodyText(body, ']'), TermAt(s).value.1);
    } else if s[0] == '"' || s[0] == '\'' {
      f := QuotedFound(s);
    } else {
      f := BareFound(s);
    }
  }

  lemma {:induction false} BodyFound(s: string, list: bool) returns (b: Body)
    requires ValuesAt(s, if list then ']' else '}').Some?
    ensures var close := if list then ']' else '}';
            var (ts, rest) := ValuesAt(s, close).value;
            s == BodyText(b, close) + rest && BodyOk(b, list, rest) && Values(b) == ts
    decreases |s|, 2
  {
    hide IsGap, FormOk, FormText, Meaning, TermAt, ElementAt, TailAt;
    var close := if list then ']' else '}';
    var t := AfterGap(s);
    var gap := GapFound(s);
    GapStops(s);
    hide AfterGap;
    assert t == [t[0]] + t[1..];
    if t[0] == close {
      b := End(gap);
      Assoc(gap, [close], t[1..]);
    } else if t[0] == '|' && list {
      b := TailFound(gap, t);
    } else {
      b := ElementFound(gap, t, list);
    }
  }

  lemma {:induction false} TailFound(gap: string, t: string) returns (b: Body)
    requires IsGap(gap) && t != "" && t[0] == '|' && TailAt(t[1..], ']').Some?
    ensures var (ts, rest) := TailAt(t[1..], ']').value;
            gap + t == BodyText(b, ']') + rest && BodyOk(b, true, rest) && Values(b) == ts
    decreases |t|, 1
  {
    hide IsGap, FormOk, FormText, Meaning, TermAt;
    var inner := GapFound(t[1..]);
    var v := AfterGap(t[1..]);
    TermSkips(t[1..]);
    GapStops(t[1..]);
    var f := FormFound(v);
    var after := GapFound(TermAt(v).value.1);
    var u := AfterGap(TermAt(v).value.1);
    hide AfterGap;
    var rest := u[1..];
    assert u == "]" + rest && t == "|" + t[1..];
    b := Tail(gap, inner, f, after);
    FinalText(inner, FormText(f), after, "]", rest);
    Assoc("|", inner + (FormText(f) + (after + "]")), rest);
    Assoc(gap, "|" + (inner + (FormText(f) + (after + "]"))), rest);
  }

  lemma {:induction false} ElementFound(gap: string, t: string, list: bool) returns (b: Body)
    requires var close := if list then ']' else '}';
             && IsGap(gap) && t != "" && AfterGap(t) == t && t[0] != close && (list ==> t[0] != '|')
             && ValuesAt(t, close).Some?
    ensures var close := if list then ']' else '}';
            var (ts, rest) := ValuesAt(t, close).value;
            gap + t == BodyText(b, close) + rest && BodyOk(b, list, rest) && Values(b) == ts
    decreases |t|, 1
  {
    hide IsGap, FormOk, FormText, Meaning, TermAt;
    var close := if list then ']' else '}';
    var f := FormFound(t);
    StartsWith(f, t, list);
    var v := TermAt(t).value.1;
    var after := GapFound(v);
    var u := AfterGap(v);
    var next := Resumes(u, close).value;
    assert ValuesAt(t, close) == Prefixed([TermAt(t).value.0], ValuesAt(next, close));
    if u[0] == close {
      ValuesEnd(u[1..], close);
      assert u == [close] + u[1..];
      b := Final(gap, f, after);
      FinalText(gap, FormText(f), after, [close], u[1..]);
      assert [Meaning(f)] + [] == [Meaning(f)];
    } else {
      assert u == "," + next;
      var more := BodyFound(next, list);
      b := More(gap, f, after, more);
      var rest := ValuesAt(t, close).value.1;
      FinalText(gap, FormText(f), after, "," + BodyText(more, close), rest);
      Assoc(",", BodyText(more, close), rest);
    }
  }

  lemma StartsWith(f: Form, t: string, list: bool)
    requires t != "" && (list ==> t[0] != '|') && FormText(f) <= t
    ensures list && f.Bare? && f.text != "" ==> f.text[0] != '|'
  {
  }

  lemma {:induction false} FileFound(s: string) returns (f: File)
    requires TermsAt(s).Some?
    ensures s == FileText(f) && FileOk(f) && FileTerms(f) == TermsAt(s).value.0
    decreases |s|
  {
    hide IsGap, IsLastGap, FormOk, FormText, Meaning, TermAt;
    var t := AfterGap(s);
    var gap := GapFound(s);
    GapStops(s);
    if t == "" {
      f := Done(gap);
      assert s == gap + "" && gap + "" == gap;
    } else {
      var form := FormFound(t);
      var v := TermAt(t).value.1;
      var after := GapFound(v);
      var u := AfterGap(v);
      hide AfterGap;
      if u == "" {
        f := Lone(gap, form, after);
        assert after + "" == after;
      } else {
        var more := FileFound(u[1..]);
        f := Next(gap, form, after, more);
        assert u == "." + u[1..];
      }
    }
  }

  /** The text is a file of these terms. */
  ghost predicate Writes(content: string, f: File, ts: seq<Term>) {
    content == FileText(f) && FileOk(f) && FileTerms(f) == ts
  }

  /** A file is read as given terms if and only if it is written as forms that stand for them. */
  lemma TermsIff(content: string, ts: seq<Term>)
    ensures Terms(content) == Some(ts) <==> exists f :: Writes(content, f, ts)
  {
    hide TermsAt, FileText, FileOk, FileTerms;
    if Terms(content) == Some(ts) {
      var f := FileFound(content);
      assert Writes(content, f, ts);
    }
    if f :| Writes(content, f, ts) {
      FileReads(f);
    }
  }

  // ----- every list of terms can be written -----

  lemma {:induction false} UnitsFor(value: string, mark: char) returns (us: seq<Unit>)
    requires mark == '"' || mark == '\''
    ensures UnitsOk(us, mark) && UnitsValue(us) == value
  {
    if value == "" {
      us := [];
    } else {
      var more := UnitsFor(value[1..], mark);
      us := [if value[0] == mark || value[0] == '\\' then Escaped(value[0]) else Plain(value[0])] + more;
      assert us[1..] == more && value == [value[0]] + value[1..];
    }
  }

  /** Quoting its values, a term can be written before any text. */
  lemma {:induction false} FormFor(t: Term) returns (f: Form)
    ensures (forall rest :: FormOk(f, rest)) && Meaning(f) == t && !f.Bare?
    decreases t
  {
    match t
    case Atom(value) =>
      var us := UnitsFor(value, '\'');
      f := Quoted('\'', us);
    case Str(value) =>
      var us := UnitsFor(value, '"');
      f := Quoted('"', us);
    case Tuple(values) =>
      var body := BodyFor(values, false);
      f := Braces(body);
    case List(values) =>
      var body := BodyFor(values, true);
      f := Brackets(body);
  }

  lemma {:induction false} BodyFor(ts: seq<Term>, list: bool) returns (b: Body)
    ensures (forall rest :: BodyOk(b, list, rest)) && Values(b) == ts
    decreases ts
  {
    if ts == [] {
      b := End("");
    } else {
      var f := FormFor(ts[0]);
      var more := BodyFor(ts[1..], list);
      hide FormOk, Meaning;
      b := More("", f, "", more);
      assert ts == [ts[0]] + ts[1..];
    }
  }

  lemma NoGap()
    ensures IsGap("") && IsLastGap("")
  {
    assert "" == "" + "" && Gaps.IsGap("", '%');
  }

  lemma {:induction false} FileFor(ts: seq<Term>) returns (f: File)
    ensures FileOk(f) && FileTerms(f) == ts
  {
    NoGap();
    hide FormOk, FormText, Meaning, IsGap, IsLastGap;
    if ts == [] {
      f := Done("");
    } else {
      var form := FormFor(ts[0]);
      var more := FileFor(ts[1..]);
      f := Next("", form, "", more);
      assert ts == [ts[0]] + ts[1..];
    }
  }

  /** Every list of terms, whatever characters its values hold, is read from some text. */
  lemma EveryTermWritten(ts: seq<Term>) returns (f: File)
    ensures Writes(FileText(f), f, ts) && Terms(FileText(f)) == Some(ts)
  {
    hide FileText, FileOk, FileTerms, Terms;
    f := FileFor(ts);
    TermsIff(FileText(f), ts);
  }
}
