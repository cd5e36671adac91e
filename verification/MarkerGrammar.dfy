/** The marker grammar as trees that carry their own blanks, and its equivalence with the recogniser. */
module MarkerGrammar {
  import opened Text
  import opened Marker

  datatype Operand = Quoted(blanks: string, quote: char, body: string) | Variable(blanks: string, name: string)

  datatype Relation = Symbol(blanks: string, text: string) | In(blanks: string) | NotIn(blanks: string, gap: string)

  datatype Atom =
    | Compare(left: Operand, relation: Relation, right: Operand)
    | Grouped(blanks: string, inner: Disjunction, gap: string)

  /** atom ("and" atom)* */
  datatype Conjunction = One(atom: Atom) | And(atom: Atom, blanks: string, more: Conjunction)

  /** conjunction ("or" conjunction)* */
  datatype Disjunction = Single(conjunction: Conjunction) | Or(conjunction: Conjunction, blanks: string, more: Disjunction)

  // ----- printing -----

  function OperandText(x: Operand): string {
    match x
    case Quoted(blanks, quote, body) => blanks + ([quote] + (body + [quote]))
    case Variable(blanks, name) => blanks + name
  }

  function RelationText(x: Relation): string {
    match x
    case Symbol(blanks, text) => blanks + text
    case In(blanks) => blanks + "in"
    case NotIn(blanks, gap) => blanks + ("not" + (gap + "in"))
  }

  function AtomText(x: Atom): string {
    match x
    case Compare(left, relation, right) => OperandText(left) + (RelationText(relation) + OperandText(right))
    case Grouped(blanks, inner, gap) => blanks + ("(" + (DisjunctionText(inner) + (gap + ")")))
  }

  function ConjunctionText(x: Conjunction): string {
    match x
    case One(atom) => AtomText(atom)
    case And(atom, blanks, more) => AtomText(atom) + (blanks + ("and" + ConjunctionText(more)))
  }

  function DisjunctionText(x: Disjunction): string {
    match x
    case Single(conjunction) => ConjunctionText(conjunction)
    case Or(conjunction, blanks, more) => ConjunctionText(conjunction) + (blanks + ("or" + DisjunctionText(more)))
  }

  // ----- which trees belong to the language -----

  predicate Blanks(s: string) { s == "" || ((s[0] == ' ' || s[0] == '\t') && Blanks(s[1..])) }

  predicate Word(s: string) { s == "" || ((s[0] == '_' || 'a' <= s[0] <= 'z') && Word(s[1..])) }

  /** The text begins with a character that would lengthen a word before it. */
  predicate Lengthens(s: string) { s != "" && (s[0] == '_' || 'a' <= s[0] <= 'z') }

  /** The variables of PEP 508 and PEP 751, the older spelling "extra" included. */
  predicate Named(name: string) {
    name in {"os_name", "sys_platform", "platform_machine", "platform_python_implementation", "platform_release",
             "platform_system", "platform_version", "python_version", "python_full_version", "implementation_name",
             "implementation_version", "extra", "extras", "dependency_groups"}
  }

  predicate Compares(text: string) { text in {"<", "<=", ">", ">=", "==", "!=", "~=", "==="} }

  /** String content: an escaped pair, or any character but the quote and the backslash. */
  predicate BodyOf(body: string, quote: char)
    decreases |body|
  {
    if body == "" then true
    else if body[0] == '\\' then |body| > 1 && BodyOf(body[2..], quote)
    else body[0] != quote && BodyOf(body[1..], quote)
  }

  predicate OperandOk(x: Operand) {
    match x
    case Quoted(blanks, quote, body) => Blanks(blanks) && (quote == '\'' || quote == '"') && BodyOf(body, quote)
    case Variable(blanks, name) => Blanks(blanks) && Word(name) && Named(name)
  }

  /** A word-like token must not run into another: blanks are needed between two of them. */
  predicate RelationOk(x: Relation, afterWord: bool, next: string) {
    match x
    case Symbol(blanks, text) => Blanks(blanks) && Compares(text)
    case In(blanks) => Blanks(blanks) && (afterWord ==> blanks != "") && !Lengthens(next)
    case NotIn(blanks, gap) => Blanks(blanks) && (afterWord ==> blanks != "") && Blanks(gap) && gap != "" && !Lengthens(next)
  }

  predicate AtomOk(x: Atom) {
    match x
    case Compare(left, relation, right) =>
      OperandOk(left) && OperandOk(right) && RelationOk(relation, left.Variable?, OperandText(right))
    case Grouped(blanks, inner, gap) => Blanks(blanks) && Blanks(gap) && DisjunctionOk(inner)
  }

  predicate EndsAtomInWord(x: Atom) { x.Compare? && x.right.Variable? }

  predicate ConjunctionOk(x: Conjunction) {
    match x
    case One(atom) => AtomOk(atom)
    case And(atom, blanks, more) =>
      AtomOk(atom) && Blanks(blanks) && (EndsAtomInWord(atom) ==> blanks != "")
      && ConjunctionOk(more) && !Lengthens(ConjunctionText(more))
  }

  predicate EndsConjunctionInWord(x: Conjunction) {
    match x
    case One(atom) => EndsAtomInWord(atom)
    case And(_, _, more) => EndsConjunctionInWord(more)
  }

  predicate DisjunctionOk(x: Disjunction) {
    match x
    case Single(conjunction) => ConjunctionOk(conjunction)
    case Or(conjunction, blanks, more) =>
      ConjunctionOk(conjunction) && Blanks(blanks) && (EndsConjunctionInWord(conjunction) ==> blanks != "")
      && DisjunctionOk(more) && !Lengthens(DisjunctionText(more))
  }

  predicate EndsInWord(x: Disjunction) {
    match x
    case Single(conjunction) => EndsConjunctionInWord(conjunction)
    case Or(_, _, more) => EndsInWord(more)
  }

  ghost predicate Derives(x: Disjunction, gap: string, marker: string) {
    DisjunctionOk(x) && Blanks(gap) && marker == DisjunctionText(x) + gap
  }

  // ----- blanks and keywords -----

  lemma {:induction false} SkipBlanks(blanks: string, rest: string)
    requires Blanks(blanks)
    ensures SkipBlank(blanks + rest) == SkipBlank(rest)
  {
    if blanks == "" {
      assert blanks + rest == rest;
    } else {
      assert (blanks + rest)[1..] == blanks[1..] + rest;
      SkipBlanks(blanks[1..], rest);
    }
  }

  lemma {:induction false} SkippedBlanks(s: string) returns (blanks: string)
    ensures Blanks(blanks) && s == blanks + SkipBlank(s)
    ensures blanks == "" ==> SkipBlank(s) == s
  {
    if s != "" && Blank(s[0]) {
      var rest := SkippedBlanks(s[1..]);
      blanks := [s[0]] + rest;
      assert blanks[1..] == rest;
      Assoc([s[0]], rest, SkipBlank(s[1..]));
      SplitPrefix(s, [s[0]]);
    } else {
      blanks := "";
    }
  }

  lemma NoBlanks(s: string)
    requires s == "" || !Blank(s[0])
    ensures SkipBlank(s) == s
  {
  }

  lemma KeywordFound(blanks: string, keyword: string, rest: string)
    requires Blanks(blanks) && !StartsWord(rest) && keyword != "" && WordChar(keyword[0])
    ensures Keyword(blanks + (keyword + rest), keyword) == (true, rest)
  {
    hide Blanks;
    SkipBlanks(blanks, keyword + rest);
    NoBlanks(keyword + rest);
    assert (keyword + rest)[|keyword|..] == rest;
  }

  /** After another word, or a non-word, the keyword is not found. */
  lemma KeywordAbsent(blanks: string, rest: string, keyword: string)
    requires Blanks(blanks) && (rest == "" || !Blank(rest[0])) && !(keyword <= rest)
    ensures Keyword(blanks + rest, keyword) == (false, rest)
  {
    hide Blanks;
    SkipBlanks(blanks, rest);
    NoBlanks(rest);
  }

  lemma KeywordSplit(s: string, keyword: string) returns (blanks: string)
    requires Keyword(s, keyword).0
    ensures Blanks(blanks) && s == blanks + (keyword + Keyword(s, keyword).1)
    ensures blanks == "" ==> keyword <= s
    ensures !StartsWord(Keyword(s, keyword).1)
  {
    hide SkipBlank, Blanks;
    blanks := SkippedBlanks(s);
    SplitPrefix(SkipBlank(s), keyword);
  }

  // ----- operands -----

  lemma {:induction false} StringCloses(body: string, quote: char, rest: string)
    requires BodyOf(body, quote) && quote != '\\'
    ensures StringRest(body + ([quote] + rest), quote) == Some(rest)
    decreases |body|
  {
    var s := body + ([quote] + rest);
    if body == "" {
      assert s == [quote] + rest;
    } else if body[0] == '\\' {
      assert s[2..] == body[2..] + ([quote] + rest);
      StringCloses(body[2..], quote, rest);
    } else {
      assert s[1..] == body[1..] + ([quote] + rest);
      StringCloses(body[1..], quote, rest);
    }
  }

  lemma {:induction false} StringBody(s: string, quote: char) returns (body: string)
    requires StringRest(s, quote).Some? && quote != '\\'
    ensures BodyOf(body, quote) && s == body + ([quote] + StringRest(s, quote).value)
    decreases |s|
  {
    if s[0] == '\\' && |s| > 1 {
      var more := StringBody(s[2..], quote);
      body := s[..2] + more;
      assert body[2..] == more;
      Assoc(s[..2], more, [quote] + StringRest(s[2..], quote).value);
      assert s == s[..2] + s[2..];
    } else if s[0] == quote {
      body := "";
    } else {
      var more := StringBody(s[1..], quote);
      LoneBackslashFails(s, quote);
      body := [s[0]] + more;
      assert body[1..] == more;
      Assoc([s[0]], more, [quote] + StringRest(s[1..], quote).value);
      assert s == [s[0]] + s[1..];
    }
  }

  lemma LoneBackslashFails(s: string, quote: char)
    requires StringRest(s, quote).Some? && s != "" && quote != '\\' && !(s[0] == '\\' && |s| > 1)
    ensures s[0] != '\\'
  {
    assert |s| == 1 ==> s[1..] == "";
  }

  lemma {:induction false} WordEnds(name: string, rest: string)
    requires Word(name) && !StartsWord(rest)
    ensures WordLength(name + rest) == |name|
  {
    if name == "" {
      assert name + rest == rest;
    } else {
      assert (name + rest)[1..] == name[1..] + rest;
      WordEnds(name[1..], rest);
    }
  }

  lemma {:induction false} WordTaken(s: string)
    ensures Word(s[..WordLength(s)]) && !StartsWord(s[WordLength(s)..])
  {
    if StartsWord(s) {
      WordTaken(s[1..]);
      assert s[..WordLength(s)][1..] == s[1..][..WordLength(s[1..])];
    }
  }

  lemma QuotedText(blanks: string, quote: char, body: string, rest: string)
    ensures OperandText(Quoted(blanks, quote, body)) + rest == blanks + ([quote] + (body + ([quote] + rest)))
  {
    Assoc(blanks, [quote] + (body + [quote]), rest);
    Assoc([quote], body + [quote], rest);
    Assoc(body, [quote], rest);
  }

  lemma OperandParses(x: Operand, rest: string)
    requires OperandOk(x) && (x.Variable? ==> !StartsWord(rest))
    ensures Value(OperandText(x) + rest) == Some(rest)
  {
    hide IsVariable, Named, SkipBlank, Blanks, Word, WordLength, StringRest, BodyOf;
    match x {
      case Quoted(blanks, quote, body) =>
        QuotedText(blanks, quote, body, rest);
        var inner := body + ([quote] + rest);
        SkipBlanks(blanks, [quote] + inner);
        NoBlanks([quote] + inner);
        StringCloses(body, quote, rest);
        assert ([quote] + inner)[1..] == inner;
      case Variable(blanks, name) =>
        Assoc(blanks, name, rest);
        SkipBlanks(blanks, name + rest);
        WordStart(name);
        NamedIff(name);
        NoBlanks(name + rest);
        WordEnds(name, rest);
        assert (name + rest)[..|name|] == name && (name + rest)[|name|..] == rest;
    }
  }

  lemma WordStart(name: string)
    requires Word(name) && Named(name)
    ensures name != "" && WordChar(name[0])
  {
    NamedIff(name);
    hide IsVariable, Named;
  }

  /** The recogniser's tables hold what the grammar names. */
  lemma NamedIff(name: string)
    ensures Named(name) <==> IsVariable(name)
  {
  }

  lemma LengthensIff(s: string)
    ensures Lengthens(s) <==> StartsWord(s)
  {
  }

  lemma OperandFound(s: string) returns (x: Operand)
    requires Value(s).Some?
    ensures OperandOk(x) && s == OperandText(x) + Value(s).value
    ensures x.Variable? ==> !StartsWord(Value(s).value)
    ensures x.Variable? && x.blanks == "" ==> StartsWord(s)
  {
    var blanks := SkippedBlanks(s);
    var t, rest := SkipBlank(s), Value(s).value;
    hide SkipBlank, Blanks, IsVariable, Named, Word, WordLength, StringRest, BodyOf;
    assert ValueAt(t) == Some(rest);
    if t[0] == '\'' || t[0] == '"' {
      x := StringFound(blanks, t, rest);
    } else {
      x := VariableFound(blanks, t, rest);
    }
  }

  lemma StringFound(blanks: string, t: string, rest: string) returns (x: Operand)
    requires Blanks(blanks) && t != "" && (t[0] == '\'' || t[0] == '"') && ValueAt(t) == Some(rest)
    ensures OperandOk(x) && x.Quoted? && blanks + t == OperandText(x) + rest
  {
    hide Blanks, StringRest, BodyOf;
    var body := StringBody(t[1..], t[0]);
    x := Quoted(blanks, t[0], body);
    QuotedText(blanks, t[0], body, rest);
    assert t == [t[0]] + t[1..];
  }

  lemma VariableFound(blanks: string, t: string, rest: string) returns (x: Operand)
    requires Blanks(blanks) && t != "" && t[0] != '\'' && t[0] != '"' && ValueAt(t) == Some(rest)
    ensures OperandOk(x) && x.Variable? && x.blanks == blanks && blanks + t == OperandText(x) + rest
    ensures !StartsWord(rest) && StartsWord(t)
  {
    hide Blanks, IsVariable, Named, Word, WordLength;
    var n := WordLength(t);
    WordTaken(t);
    x := Variable(blanks, t[..n]);
    NamedIff(t[..n]);
    WordStart(t[..n]);
    assert t == t[..n] + t[n..];
    Assoc(blanks, t[..n], t[n..]);
  }

  /** An operand's text never starts with '=' or '(', whatever its blanks. */
  lemma OperandStart(x: Operand, rest: string)
    requires OperandOk(x)
    ensures OperandText(x) != "" && OperandText(x)[0] != '='
    ensures var t := SkipBlank(OperandText(x) + rest); t != "" && t[0] != '('
    ensures SkipBlank(OperandText(x) + rest) == SkipBlank(OperandText(x.(blanks := "")) + rest)
  {
    hide IsVariable, Named, SkipBlank, Word, BodyOf;
    match x {
      case Quoted(blanks, quote, body) =>
        QuotedText(blanks, quote, body, rest);
        QuotedText("", quote, body, rest);
        var t := [quote] + (body + ([quote] + rest));
        SkipBlanks(blanks, t);
        SkipBlanks("", t);
        NoBlanks(t);
      case Variable(blanks, name) =>
        WordStart(name);
        Assoc(blanks, name, rest);
        SkipBlanks(blanks, name + rest);
        NoBlanks(name + rest);
        assert "" + name == name;
    }
  }

  // ----- relations -----

  /** No symbol after the first match in trial order: the symbol is taken whole when '=' does not follow. */
  lemma SymbolParses(text: string, rest: string)
    requires text in SYMBOLS && (rest == "" || rest[0] != '=')
    ensures SymbolRest(text + rest, 0) == Some(rest)
  {
    var s := text + rest;
    var k :| 0 <= k < |SYMBOLS| && SYMBOLS[k] == text;
    forall j | 0 <= j < k ensures !(SYMBOLS[j] <= s) {
      EarlierSymbolDiffers(j, k, rest);
    }
    FirstSymbol(s, 0, k);
    assert s[|text|..] == rest;
  }

  lemma EarlierSymbolDiffers(j: nat, k: nat, rest: string)
    requires j < k < |SYMBOLS| && (rest == "" || rest[0] != '=')
    ensures !(SYMBOLS[j] <= SYMBOLS[k] + rest)
  {
    var tried, text := SYMBOLS[j], SYMBOLS[k];
    assert (|tried| > |text| && tried[|text|] == '=') || tried[0] != text[0];
    NotPrefix(tried, text, rest);
  }

  lemma NotPrefix(tried: string, text: string, rest: string)
    requires tried != "" && text != "" && (rest == "" || rest[0] != '=')
    requires (|tried| > |text| && tried[|text|] == '=') || tried[0] != text[0]
    ensures !(tried <= text + rest)
  {
    var s := text + rest;
    assert s[0] == text[0];
    assert rest != "" ==> s[|text|] == rest[0];
  }

  lemma {:induction false} FirstSymbol(s: string, from: nat, k: nat)
    requires from <= k < |SYMBOLS| && SYMBOLS[k] <= s
    requires forall j :: from <= j < k ==> !(SYMBOLS[j] <= s)
    ensures SymbolRest(s, from) == Some(s[|SYMBOLS[k]|..])
    decreases k - from
  {
    if from < k { FirstSymbol(s, from + 1, k); }
  }

  lemma {:induction false} NoSymbol(s: string, k: nat)
    requires k <= |SYMBOLS| && (s == "" || WordChar(s[0]))
    ensures SymbolRest(s, k) == None
    decreases |SYMBOLS| - k
  {
    if k < |SYMBOLS| {
      assert SYMBOLS[k] != "" && !WordChar(SYMBOLS[k][0]);
      NoSymbol(s, k + 1);
    }
  }

  lemma {:induction false} SymbolFound(s: string, k: nat) returns (text: string)
    requires k <= |SYMBOLS| && SymbolRest(s, k).Some?
    ensures text in SYMBOLS && s == text + SymbolRest(s, k).value
    decreases |SYMBOLS| - k
  {
    if SYMBOLS[k] <= s {
      text := SYMBOLS[k];
      SplitPrefix(s, text);
    } else {
      text := SymbolFound(s, k + 1);
    }
  }

  lemma SymbolStart(text: string)
    requires text in SYMBOLS
    ensures text != "" && !WordChar(text[0]) && !Blank(text[0])
  {
  }

  lemma RelationParses(x: Relation, afterWord: bool, rest: string)
    requires RelationOk(x, afterWord, rest) && (rest == "" || rest[0] != '=')
    ensures Operator(RelationText(x) + rest) == Some(rest)
  {
    hide SkipBlank, Blanks, SymbolRest, Keyword;
    match x {
      case Symbol(blanks, text) =>
        SymbolStart(text);
        Assoc(blanks, text, rest);
        SkipBlanks(blanks, text + rest);
        NoBlanks(text + rest);
        SymbolParses(text, rest);
      case In(blanks) =>
        var t := "in" + rest;
        Assoc(blanks, "in", rest);
        SkipBlanks(blanks, t);
        NoBlanks(t);
        NoSymbol(t, 0);
        NoGap();
        KeywordFound("", "in", rest);
        assert "" + t == t;
      case NotIn(blanks, gap) =>
        NotInParses(blanks, gap, rest);
    }
  }

  lemma NoGap()
    ensures Blanks("")
  {
  }

  lemma NotInParses(blanks: string, gap: string, rest: string)
    requires Blanks(blanks) && Blanks(gap) && gap != "" && !StartsWord(rest)
    ensures Operator(RelationText(NotIn(blanks, gap)) + rest) == Some(rest)
  {
    hide SkipBlank, Blanks, SymbolRest, Keyword;
    NoGap();
    BlankStart(gap);
    var u := gap + ("in" + rest);
    var t := "not" + u;
    Assoc(blanks, "not" + (gap + "in"), rest);
    Assoc("not", gap + "in", rest);
    Assoc(gap, "in", rest);
    assert RelationText(NotIn(blanks, gap)) + rest == blanks + t;
    SkipBlanks(blanks, t);
    NoBlanks(t);
    NoSymbol(t, 0);
    assert "" + t == t;
    assert t[0] == 'n';
    KeywordAbsent("", t, "in");
    KeywordFound("", "not", u);
    KeywordFound(gap, "in", rest);
  }

  lemma BlankStart(s: string)
    requires Blanks(s) && s != ""
    ensures Blank(s[0]) && !WordChar(s[0])
  {
  }

  lemma RelationFound(s: string, afterWord: bool) returns (x: Relation)
    requires Operator(s).Some? && (afterWord ==> !StartsWord(s))
    ensures RelationOk(x, afterWord, Operator(s).value) && s == RelationText(x) + Operator(s).value
  {
    hide SkipBlank, Blanks, SymbolRest, Keyword;
    var blanks := SkippedBlanks(s);
    var t := SkipBlank(s);
    var rest := Operator(s).value;
    if SymbolRest(t, 0).Some? {
      var text := SymbolFound(t, 0);
      x := Symbol(blanks, text);
      Assoc(blanks, text, rest);
    } else if Keyword(t, "in").0 {
      var more := KeywordSplit(t, "in");
      x := In(blanks + more);
      BlanksJoin(blanks, more);
      Assoc(blanks, more, "in" + rest);
      Assoc(blanks + more, "in", rest);
      assert blanks + more == "" ==> s == "in" + rest;
    } else {
      var more := KeywordSplit(t, "not");
      var u := Keyword(t, "not").1;
      var gap := KeywordSplit(u, "in");
      x := NotIn(blanks + more, gap);
      BlanksJoin(blanks, more);
      Assoc(blanks, more, "not" + u);
      Assoc(gap, "in", rest);
      Assoc("not", gap + "in", rest);
      Assoc(blanks + more, "not" + (gap + "in"), rest);
      assert blanks + more == "" ==> s == "not" + u;
      assert gap == "" ==> u == "in" + rest;
    }
  }

  lemma {:induction false} BlanksJoin(a: string, b: string)
    requires Blanks(a) && Blanks(b)
    ensures Blanks(a + b)
  {
    if a == "" {
      assert a + b == b;
    } else {
      BlanksJoin(a[1..], b);
      assert (a + b)[1..] == a[1..] + b;
    }
  }

  // ----- completeness: every tree's text is accepted -----

  /** After a word the relation's text starts with a blank or a symbol. */
  lemma RelationStart(x: Relation, next: string, rest: string)
    requires RelationOk(x, true, next)
    ensures RelationText(x) != "" && !StartsWord(RelationText(x) + rest)
  {
    match x {
      case Symbol(blanks, text) =>
        SymbolStart(text);
        if blanks != "" { BlankStart(blanks); }
      case In(blanks) => BlankStart(blanks);
      case NotIn(blanks, gap) => BlankStart(blanks);
    }
  }

  lemma ValueSkips(s: string)
    ensures Value(SkipBlank(s)) == Value(s)
  {
    hide SkipBlank, ValueAt;
    SkipBlankTwice(s);
  }

  lemma ComparisonParses(left: Operand, relation: Relation, right: Operand, rest: string)
    requires AtomOk(Compare(left, relation, right)) && (right.Variable? ==> !StartsWord(rest))
    ensures Term(AtomText(Compare(left, relation, right)) + rest) == Some(rest)
  {
    hide Value, Operator, OperandText, RelationText, SkipBlank, OperandOk, Blanks, Expression;
    var tail := OperandText(right) + rest;
    var s := OperandText(left) + (RelationText(relation) + tail);
    Assoc(OperandText(left), RelationText(relation) + OperandText(right), rest);
    Assoc(RelationText(relation), OperandText(right), rest);
    OperandStart(left, RelationText(relation) + tail);
    OperandStart(right, "");
    assert StartsWord(tail) == StartsWord(OperandText(right)) && tail[0] == OperandText(right)[0];
    if left.Variable? { RelationStart(relation, OperandText(right), tail); }
    ValueSkips(s);
    OperandParses(left, RelationText(relation) + tail);
    RelationParses(relation, left.Variable?, tail);
    OperandParses(right, rest);
  }

  /** What may follow an expression: neither a word running on, nor a connective. */
  predicate Stops(rest: string) {
    !StartsWord(rest) && !Keyword(rest, "and").0 && !Keyword(rest, "or").0
  }

  lemma {:induction false} AtomParses(x: Atom, rest: string)
    requires AtomOk(x) && (EndsAtomInWord(x) ==> !StartsWord(rest))
    ensures Term(AtomText(x) + rest) == Some(rest)
    decreases x
  {
    match x {
      case Compare(left, relation, right) => ComparisonParses(left, relation, right, rest);
      case Grouped(blanks, inner, gap) =>
        hide Term, Expression, AtomText, DisjunctionText;
        CloseStops(gap, rest);
        DisjunctionParses(inner, gap + (")" + rest));
        GroupedParses(blanks, inner, gap, rest);
    }
  }

  lemma GroupedParses(blanks: string, inner: Disjunction, gap: string, rest: string)
    requires Blanks(blanks) && Blanks(gap)
    requires Expression(DisjunctionText(inner) + (gap + (")" + rest))) == Some(SkipBlank(gap + (")" + rest)))
    ensures Term(AtomText(Grouped(blanks, inner, gap)) + rest) == Some(rest)
  {
    hide Term, Expression, DisjunctionText, AtomText, SkipBlank, Blanks;
    var close := ")" + rest;
    var body := DisjunctionText(inner) + (gap + close);
    GroupedText(blanks, inner, gap, rest);
    SkipBlanks(blanks, "(" + body);
    NoBlanks("(" + body);
    SkipBlanks(gap, close);
    NoBlanks(close);
    SkipBlankTwice(gap + close);
    ParenthesisParses(blanks + ("(" + body), body, gap + close, rest);
  }

  lemma ParenthesisParses(s: string, body: string, after: string, rest: string)
    requires SkipBlank(s) == "(" + body && Expression(body) == Some(SkipBlank(after))
    requires SkipBlank(SkipBlank(after)) == ")" + rest
    ensures Term(s) == Some(rest)
  {
    hide SkipBlank, Expression, Comparison;
    assert ("(" + body)[1..] == body && (")" + rest)[1..] == rest;
  }

  lemma GroupedText(blanks: string, inner: Disjunction, gap: string, rest: string)
    ensures AtomText(Grouped(blanks, inner, gap)) + rest == blanks + ("(" + (DisjunctionText(inner) + (gap + (")" + rest))))
  {
    hide DisjunctionText;
    Assoc(blanks, "(" + (DisjunctionText(inner) + (gap + ")")), rest);
    Assoc("(", DisjunctionText(inner) + (gap + ")"), rest);
    Assoc(DisjunctionText(inner), gap + ")", rest);
    Assoc(gap, ")", rest);
  }

  lemma CloseStops(gap: string, rest: string)
    requires Blanks(gap)
    ensures Stops(gap + (")" + rest))
  {
    hide Blanks, SkipBlank;
    var close := ")" + rest;
    assert close[0] == ')';
    KeywordAbsent(gap, close, "and");
    KeywordAbsent(gap, close, "or");
    if gap != "" { BlankStart(gap); }
    assert gap == "" ==> gap + close == close;
  }

  lemma {:induction false} ConjunctionParses(x: Conjunction, rest: string)
    requires ConjunctionOk(x) && (EndsConjunctionInWord(x) ==> !StartsWord(rest)) && !Keyword(rest, "and").0
    ensures AndExpression(ConjunctionText(x) + rest) == Some(SkipBlank(rest))
    decreases x
  {
    hide SkipBlank, Blanks, Term, AtomText, KeywordAt;
    match x {
      case One(atom) => AtomParses(atom, rest);
      case And(atom, blanks, more) =>
        var tail := ConjunctionText(more) + rest;
        Assoc(AtomText(atom), blanks + ("and" + ConjunctionText(more)), rest);
        Assoc(blanks, "and" + ConjunctionText(more), rest);
        Assoc("and", ConjunctionText(more), rest);
        ConjunctionNotEmpty(more);
        if blanks != "" { BlankStart(blanks); }
        AtomParses(atom, blanks + ("and" + tail));
        KeywordFound(blanks, "and", tail);
        ConjunctionParses(more, rest);
    }
  }

  lemma {:induction false} ConjunctionNotEmpty(x: Conjunction)
    requires ConjunctionOk(x)
    ensures ConjunctionText(x) != ""
  {
    var atom := if x.One? then x.atom else x.atom;
    match atom {
      case Compare(left, _, _) => hide OperandText; OperandStart(left, "");
      case Grouped(blanks, inner, gap) => assert |AtomText(atom)| > 0;
    }
  }

  lemma {:induction false} DisjunctionParses(x: Disjunction, rest: string)
    requires DisjunctionOk(x) && Stops(rest)
    ensures Expression(DisjunctionText(x) + rest) == Some(SkipBlank(rest))
    decreases x
  {
    hide SkipBlank, Blanks, AndExpression, ConjunctionText, KeywordAt;
    match x {
      case Single(conjunction) =>
        ConjunctionParses(conjunction, rest);
        SkipBlankTwice(rest);
      case Or(conjunction, blanks, more) =>
        hide Expression, DisjunctionText, Keyword, StartsWord;
        OrText(conjunction, blanks, more, rest);
        DisjunctionParses(more, rest);
        OrReady(conjunction, blanks, more, rest);
        ConjunctionParses(conjunction, blanks + ("or" + (DisjunctionText(more) + rest)));
        OrContinues(ConjunctionText(conjunction) + (blanks + ("or" + (DisjunctionText(more) + rest))), DisjunctionText(more) + rest);
    }
  }

  lemma OrReady(conjunction: Conjunction, blanks: string, more: Disjunction, rest: string)
    requires DisjunctionOk(Or(conjunction, blanks, more))
    ensures var tail := DisjunctionText(more) + rest;
            && !StartsWord(tail)
            && (EndsConjunctionInWord(conjunction) ==> !StartsWord(blanks + ("or" + tail)))
            && Keyword(blanks + ("or" + tail), "and") == (false, "or" + tail)
            && SkipBlank(blanks + ("or" + tail)) == "or" + tail
  {
    hide Keyword, SkipBlank, DisjunctionText;
    DisjunctionNotEmpty(more);
    if blanks != "" { BlankStart(blanks); }
    OrIsNotAnd(blanks, DisjunctionText(more) + rest);
  }

  lemma OrText(conjunction: Conjunction, blanks: string, more: Disjunction, rest: string)
    ensures DisjunctionText(Or(conjunction, blanks, more)) + rest
         == ConjunctionText(conjunction) + (blanks + ("or" + (DisjunctionText(more) + rest)))
  {
    hide ConjunctionText;
    Assoc(ConjunctionText(conjunction), blanks + ("or" + DisjunctionText(more)), rest);
    Assoc(blanks, "or" + DisjunctionText(more), rest);
    Assoc("or", DisjunctionText(more), rest);
  }

  lemma OrContinues(s: string, tail: string)
    requires AndExpression(s) == Some("or" + tail) && !StartsWord(tail)
    ensures Expression(s) == Expression(tail)
  {
    hide AndExpression, KeywordAt, SkipBlank, Blanks;
    NoGap();
    KeywordFound("", "or", tail);
    assert "" + ("or" + tail) == "or" + tail;
  }

  lemma DisjunctionNotEmpty(x: Disjunction)
    requires DisjunctionOk(x)
    ensures DisjunctionText(x) != ""
  {
    hide ConjunctionText;
    ConjunctionNotEmpty(if x.Single? then x.conjunction else x.conjunction);
  }

  lemma OrIsNotAnd(blanks: string, tail: string)
    requires Blanks(blanks)
    ensures Keyword(blanks + ("or" + tail), "and") == (false, "or" + tail)
    ensures SkipBlank(blanks + ("or" + tail)) == "or" + tail
  {
    hide SkipBlank, Blanks;
    assert ("or" + tail)[0] == 'o';
    KeywordAbsent(blanks, "or" + tail, "and");
    SkipBlanks(blanks, "or" + tail);
    NoBlanks("or" + tail);
  }

  lemma MarkerComplete(x: Disjunction, gap: string, marker: string)
    requires Derives(x, gap, marker)
    ensures Valid(marker)
  {
    hide SkipBlank, Expression, DisjunctionText, DisjunctionOk;
    BlankGapStops(gap);
    DisjunctionParses(x, gap);
    SkipBlankTwice(gap);
  }

  lemma BlankGapStops(gap: string)
    requires Blanks(gap)
    ensures Stops(gap) && SkipBlank(gap) == ""
  {
    var empty: string := "";
    SkipBlanks(gap, empty);
    assert gap + empty == gap && SkipBlank(empty) == empty;
    if gap != "" { BlankStart(gap); }
    hide SkipBlank, Blanks;
    NoKeyword(gap, "and");
    NoKeyword(gap, "or");
  }

  lemma NoKeyword(gap: string, keyword: string)
    requires SkipBlank(gap) == "" && |keyword| > 0
    ensures !Keyword(gap, keyword).0
  {
    hide SkipBlank;
  }

  // ----- soundness: every accepted text has a tree -----

  lemma ComparisonFound(s: string) returns (x: Atom)
    requires Comparison(s).Some?
    ensures x.Compare? && AtomOk(x) && s == AtomText(x) + Comparison(s).value
    ensures EndsAtomInWord(x) ==> !StartsWord(Comparison(s).value)
  {
    hide Value, Operator, OperandText, RelationText, OperandOk, Blanks;
    var rest := Comparison(s).value;
    var left := OperandFound(s);
    var t := Value(s).value;
    var relation := RelationFound(t, left.Variable?);
    var u := Operator(t).value;
    var right := OperandFound(u);
    OperandStart(right, "");
    RelationNext(relation, left.Variable?, OperandText(right), rest);
    x := Compare(left, relation, right);
    Assoc(RelationText(relation), OperandText(right), rest);
    Assoc(OperandText(left), RelationText(relation) + OperandText(right), rest);
  }

  lemma RelationNext(x: Relation, afterWord: bool, next: string, rest: string)
    requires next != "" && RelationOk(x, afterWord, next + rest)
    ensures RelationOk(x, afterWord, next)
  {
  }

  lemma ComparisonSkips(s: string)
    ensures Comparison(SkipBlank(s)) == Comparison(s)
  {
    hide Value, Operator;
    ValueSkips(s);
  }

  lemma {:induction false} AtomFound(s: string) returns (x: Atom)
    requires Term(s).Some?
    ensures AtomOk(x) && s == AtomText(x) + Term(s).value
    ensures EndsAtomInWord(x) ==> !StartsWord(Term(s).value)
    decreases |s|, 1
  {
    hide SkipBlank, Expression, Comparison, DisjunctionText, DisjunctionOk, Blanks, AtomText, StartsWord;
    var t := SkipBlank(s);
    if "(" <= t {
      var blanks := SkippedBlanks(s);
      var rest := Term(s).value;
      var inner, gap := DisjunctionFound(t[1..]);
      var after := Expression(t[1..]).value;
      var more := SkippedBlanks(after);
      SplitPrefix(t, "(");
      SplitPrefix(SkipBlank(after), ")");
      BlanksJoin(gap, more);
      Assoc(gap, more, ")" + rest);
      x := Grouped(blanks, inner, gap + more);
      GroupedText(blanks, inner, gap + more, rest);
    } else {
      ComparisonSkips(s);
      x := ComparisonFound(s);
    }
  }

  lemma {:induction false} ConjunctionFound(s: string) returns (x: Conjunction, gap: string)
    requires AndExpression(s).Some?
    ensures ConjunctionOk(x) && Blanks(gap)
    ensures s == ConjunctionText(x) + (gap + AndExpression(s).value)
    ensures EndsConjunctionInWord(x) && gap == "" ==> !StartsWord(AndExpression(s).value)
    decreases |s|, 2
  {
    hide SkipBlank, Term, AtomText, Blanks, KeywordAt, AtomOk, StartsWord, AndExpression, ConjunctionText;
    OneText(s);
    var atom := AtomFound(s);
    var t := Term(s).value;
    if Keyword(t, "and").0 {
      var blanks := KeywordSplit(t, "and");
      var u := Keyword(t, "and").1;
      var more;
      more, gap := ConjunctionFound(u);
      x := And(atom, blanks, more);
      var end := gap + AndExpression(u).value;
      AndText(atom, blanks, more, end);
      PrefixStarts(ConjunctionText(more), end);
      LengthensIff(ConjunctionText(more));
      KeywordStarts("and", t);
    } else {
      x := One(atom);
      gap := SkippedBlanks(t);
    }
  }

  lemma OneText(s: string)
    requires AndExpression(s).Some?
    ensures Term(s).Some?
    ensures !Keyword(Term(s).value, "and").0 ==> AndExpression(s).value == SkipBlank(Term(s).value)
    ensures Keyword(Term(s).value, "and").0 ==> AndExpression(Keyword(Term(s).value, "and").1) == AndExpression(s)
    ensures forall atom :: ConjunctionText(One(atom)) == AtomText(atom)
  {
    hide SkipBlank, Term, AtomText;
  }

  lemma KeywordStarts(keyword: string, s: string)
    requires keyword != "" && WordChar(keyword[0])
    ensures keyword <= s ==> StartsWord(s)
  {
  }

  lemma AndText(atom: Atom, blanks: string, more: Conjunction, rest: string)
    ensures ConjunctionText(And(atom, blanks, more)) + rest
         == AtomText(atom) + (blanks + ("and" + (ConjunctionText(more) + rest)))
  {
    hide AtomText;
    Assoc(AtomText(atom), blanks + ("and" + ConjunctionText(more)), rest);
    Assoc(blanks, "and" + ConjunctionText(more), rest);
    Assoc("and", ConjunctionText(more), rest);
  }

  lemma PrefixStarts(s: string, rest: string)
    ensures StartsWord(s) ==> StartsWord(s + rest)
  {
  }

  lemma {:induction false} DisjunctionFound(s: string) returns (x: Disjunction, gap: string)
    requires Expression(s).Some?
    ensures DisjunctionOk(x) && Blanks(gap)
    ensures s == DisjunctionText(x) + (gap + Expression(s).value)
    ensures EndsInWord(x) && gap == "" ==> !StartsWord(Expression(s).value)
    decreases |s|, 3
  {
    hide SkipBlank, AndExpression, ConjunctionText, Blanks, KeywordAt, ConjunctionOk;
    var conjunction, first := ConjunctionFound(s);
    var t := AndExpression(s).value;
    if Keyword(t, "or").0 {
      var blanks := KeywordSplit(t, "or");
      var u := Keyword(t, "or").1;
      var more;
      more, gap := DisjunctionFound(u);
      x := Or(conjunction, first + blanks, more);
      var end := gap + Expression(u).value;
      BlanksJoin(first, blanks);
      Assoc(first, blanks, "or" + u);
      OrText(conjunction, first + blanks, more, end);
      PrefixStarts(DisjunctionText(more), end);
      KeywordStarts("or", t);
    } else {
      x := Single(conjunction);
      var blanks := SkippedBlanks(t);
      gap := first + blanks;
      BlanksJoin(first, blanks);
      Assoc(first, blanks, SkipBlank(t));
    }
  }

  lemma MarkerSound(marker: string) returns (x: Disjunction, gap: string)
    requires Valid(marker)
    ensures Derives(x, gap, marker)
  {
    hide SkipBlank, Expression, DisjunctionText, DisjunctionOk, Blanks;
    var first;
    x, first := DisjunctionFound(marker);
    var blanks := SkippedBlanks(Expression(marker).value);
    gap := first + blanks;
    BlanksJoin(first, blanks);
    assert blanks + "" == blanks;
  }

  /** The recogniser accepts exactly the texts the grammar derives. */
  lemma RecogniserIsGrammar(marker: string)
    ensures Valid(marker) <==> exists x, gap :: Derives(x, gap, marker)
  {
    hide Valid, Derives;
    if Valid(marker) {
      var x, gap := MarkerSound(marker);
    }
    if x, gap :| Derives(x, gap, marker) {
      MarkerComplete(x, gap, marker);
    }
  }
}
