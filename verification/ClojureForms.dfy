/** Clojure forms: the token parser, token flattening, and an independent notion of balance. */
module ClojureForms {
  import opened Text
  import opened Lists

  datatype Shape = ListShape | VectorShape | MapShape | SetShape

  datatype Bracket = Round | Square | Curly

  datatype Node = Scalar(value: string) | Collection(shape: Shape, children: seq<Node>) | Macro(operand: Node)

  datatype Lexeme = Word(value: string) | Open(shape: Shape) | Close(bracket: Bracket) | ReaderMacro

  datatype Token = Token(lexeme: Lexeme, pos: nat)

  /** A set is opened by its own token and closed by the map bracket. */
  function Closing(shape: Shape): Bracket {
    match shape
    case ListShape => Round
    case VectorShape => Square
    case MapShape => Curly
    case SetShape => Curly
  }

  // ----- the parser -----

  type Parsed<T> = Option<(T, seq<Lexeme>)>

  function ParseForm(ts: seq<Lexeme>): (r: Parsed<Node>)
    ensures r.Some? ==> |r.value.1| < |ts|
    decreases |ts|, 0
  {
    if ts == [] then None
    else match ts[0]
      case Word(value) => Some((Scalar(value), ts[1..]))
      case ReaderMacro =>
        var operand := ParseForm(ts[1..]);
        if operand.None? then None else Some((Macro(operand.value.0), operand.value.1))
      case Open(shape) =>
        var items := ParseItems(ts[1..], Closing(shape));
        if items.None? then None else Some((Collection(shape, items.value.0), items.value.1))
      case Close(_) => None
  }

  function ParseItems(ts: seq<Lexeme>, close: Bracket): (r: Parsed<seq<Node>>)
    ensures r.Some? ==> |r.value.1| < |ts|
    decreases |ts|, 1
  {
    if ts == [] then None
    else if ts[0] == Close(close) then Some(([], ts[1..]))
    else if ts[0].Close? then None
    else
      var first := ParseForm(ts);
      if first.None? then None
      else
        var more := ParseItems(first.value.1, close);
        if more.None? then None else Some(([first.value.0] + more.value.0, more.value.1))
  }

  function ParseForms(ts: seq<Lexeme>): Option<seq<Node>>
    decreases |ts|
  {
    if ts == [] then Some([])
    else
      var first := ParseForm(ts);
      if first.None? then None
      else
        var more := ParseForms(first.value.1);
        if more.None? then None else Some([first.value.0] + more.value)
  }

  function Lexemes(tokens: seq<Token>): (r: seq<Lexeme>)
    ensures |r| == |tokens| && forall i :: 0 <= i < |r| ==> r[i] == tokens[i].lexeme
  {
    seq(|tokens|, i requires 0 <= i < |tokens| => tokens[i].lexeme)
  }

  lemma LexemesTail(tokens: seq<Token>, index: nat)
    requires index < |tokens|
    ensures Lexemes(tokens[index..])[0] == tokens[index].lexeme
    ensures Lexemes(tokens[index..])[1..] == Lexemes(tokens[index + 1..])
  {
  }

  /** The children read so far, completed by what the rest of the collection parses to. */
  ghost function Continued(children: seq<Node>, more: Parsed<seq<Node>>): Parsed<seq<Node>> {
    if more.None? then None else Some((children + more.value.0, more.value.1))
  }

  lemma ContinuedStart(more: Parsed<seq<Node>>)
    ensures Continued([], more) == more
  {
    if more.Some? { assert [] + more.value.0 == more.value.0; }
  }

  lemma ContinuedStep(children: seq<Node>, ts: seq<Lexeme>, close: Bracket, child: Node, rest: seq<Lexeme>)
    requires ts != [] && !ts[0].Close? && ParseForm(ts) == Some((child, rest))
    ensures Continued(children, ParseItems(ts, close)) == Continued(children + [child], ParseItems(rest, close))
  {
    var more := ParseItems(rest, close);
    if more.Some? { assert children + ([child] + more.value.0) == (children + [child]) + more.value.0; }
  }

  /** The source's index-passing parser; the index of the next token is returned with the node. */
  method ParseClojureForm(tokens: seq<Token>, index: nat) returns (r: Option<(Node, nat)>)
    requires index <= |tokens|
    ensures r.None? == ParseForm(Lexemes(tokens[index..])).None?
    ensures r.Some? ==> index < r.value.1 <= |tokens|
    ensures r.Some? ==> ParseForm(Lexemes(tokens[index..])) == Some((r.value.0, Lexemes(tokens[r.value.1..])))
    decreases |tokens| - index, 0
  {
    if index >= |tokens| {
      return None;
    }
    LexemesTail(tokens, index);
    match tokens[index].lexeme {
      case Word(value) =>
        return Some((Scalar(value), index + 1));
      case ReaderMacro =>
        var operand := ParseClojureForm(tokens, index + 1);
        if operand.None? {
          return None;
        }
        return Some((Macro(operand.value.0), operand.value.1));
      case Open(shape) =>
        var items := ParseCollection(tokens, index + 1, Closing(shape));
        if items.None? {
          return None;
        }
        return Some((Collection(shape, items.value.0), items.value.1));
      case Close(_) =>
        return None;
    }
  }

  method ParseCollection(tokens: seq<Token>, start: nat, close: Bracket) returns (r: Option<(seq<Node>, nat)>)
    requires start <= |tokens|
    ensures r.None? == ParseItems(Lexemes(tokens[start..]), close).None?
    ensures r.Some? ==> start < r.value.1 <= |tokens|
    ensures r.Some? ==> ParseItems(Lexemes(tokens[start..]), close) == Some((r.value.0, Lexemes(tokens[r.value.1..])))
    decreases |tokens| - start, 1
  {
    hide ParseForm;
    var children: seq<Node> := [];
    var index := start;
    ghost var all := ParseItems(Lexemes(tokens[start..]), close);
    ContinuedStart(all);
    while true
      invariant start <= index <= |tokens|
      invariant all == Continued(children, ParseItems(Lexemes(tokens[index..]), close))
      decreases |tokens| - index
    {
      if index >= |tokens| {
        return None;
      }
      LexemesTail(tokens, index);
      if tokens[index].lexeme == Close(close) {
        assert children + [] == children;
        return Some((children, index + 1));
      }
      if tokens[index].lexeme.Close? {
        return None;
      }
      var child := ParseClojureForm(tokens, index);
      if child.None? {
        return None;
      }
      ContinuedStep(children, Lexemes(tokens[index..]), close, child.value.0, Lexemes(tokens[child.value.1..]));
      children := children + [child.value.0];
      index := child.value.1;
    }
  }

  method ParseClojureForms(tokens: seq<Token>) returns (r: Option<seq<Node>>)
    ensures r == ParseForms(Lexemes(tokens))
  {
    hide ParseForm;
    var forms: seq<Node> := [];
    var index := 0;
    ghost var whole := ParseForms(Lexemes(tokens));
    assert tokens[0..] == tokens;
    assert whole.Some? ==> [] + whole.value == whole.value;
    while index < |tokens|
      invariant index <= |tokens|
      invariant whole.None? == ParseForms(Lexemes(tokens[index..])).None?
      invariant whole.Some? ==> whole.value == forms + ParseForms(Lexemes(tokens[index..])).value
    {
      var form := ParseClojureForm(tokens, index);
      if form.None? {
        return None;
      }
      ghost var rest := ParseForms(Lexemes(tokens[form.value.1..]));
      if rest.Some? {
        assert forms + ([form.value.0] + rest.value) == (forms + [form.value.0]) + rest.value;
      }
      forms := forms + [form.value.0];
      index := form.value.1;
    }
    assert forms + [] == forms;
    return Some(forms);
  }

  // ----- flattening, the inverse -----

  function Flatten(n: Node): (ts: seq<Lexeme>)
    ensures ts != [] && !ts[0].Close?
    decreases n, 0
  {
    match n
    case Scalar(value) => [Word(value)]
    case Macro(operand) => [ReaderMacro] + Flatten(operand)
    case Collection(shape, children) =>
      [Open(shape)] + (FlattenAll(children) + [Close(if shape.ListShape? then Round else if shape.VectorShape? then Square else Curly)])
  }

  function FlattenAll(nodes: seq<Node>): seq<Lexeme>
    decreases nodes, 1
  {
    if nodes == [] then [] else Flatten(nodes[0]) + FlattenAll(nodes[1..])
  }

  lemma {:induction false} FormOfFlatten(n: Node, rest: seq<Lexeme>)
    ensures ParseForm(Flatten(n) + rest) == Some((n, rest))
    decreases n, 0
  {
    var ts := Flatten(n) + rest;
    match n {
      case Scalar(value) =>
        assert ts[1..] == rest;
      case Macro(operand) =>
        assert ts[1..] == Flatten(operand) + rest;
        FormOfFlatten(operand, rest);
      case Collection(shape, children) =>
        var close := [Close(Closing(shape))];
        Assoc([Open(shape)], FlattenAll(children) + close, rest);
        Assoc(FlattenAll(children), close, rest);
        assert ts[1..] == FlattenAll(children) + (close + rest);
        ItemsOfFlatten(children, Closing(shape), rest);
    }
  }

  lemma {:induction false} ItemsOfFlatten(nodes: seq<Node>, close: Bracket, rest: seq<Lexeme>)
    ensures ParseItems(FlattenAll(nodes) + ([Close(close)] + rest), close) == Some((nodes, rest))
    decreases nodes, 1
  {
    var end := [Close(close)] + rest;
    if nodes == [] {
      assert FlattenAll(nodes) + end == end && end[1..] == rest;
    } else {
      Assoc(Flatten(nodes[0]), FlattenAll(nodes[1..]), end);
      FormOfFlatten(nodes[0], FlattenAll(nodes[1..]) + end);
      ItemsOfFlatten(nodes[1..], close, rest);
      assert nodes == [nodes[0]] + nodes[1..];
    }
  }

  lemma {:induction false} FlattenOfForm(ts: seq<Lexeme>)
    requires ParseForm(ts).Some?
    ensures ts == Flatten(ParseForm(ts).value.0) + ParseForm(ts).value.1
    decreases |ts|, 0
  {
    var (n, rest) := ParseForm(ts).value;
    assert ts == [ts[0]] + ts[1..];
    match ts[0] {
      case Word(_) =>
      case ReaderMacro =>
        FlattenOfForm(ts[1..]);
        Assoc([ReaderMacro], Flatten(n.operand), rest);
      case Open(shape) =>
        FlattenOfItems(ts[1..], Closing(shape));
        var close := [Close(Closing(shape))];
        Assoc(FlattenAll(n.children), close, rest);
        Assoc([Open(shape)], FlattenAll(n.children) + close, rest);
    }
  }

  lemma {:induction false} FlattenOfItems(ts: seq<Lexeme>, close: Bracket)
    requires ParseItems(ts, close).Some?
    ensures ts == FlattenAll(ParseItems(ts, close).value.0) + ([Close(close)] + ParseItems(ts, close).value.1)
    decreases |ts|, 1
  {
    if ts[0] == Close(close) {
      assert ts == [ts[0]] + ts[1..];
    } else {
      var (first, rest) := ParseForm(ts).value;
      var (more, after) := ParseItems(rest, close).value;
      FlattenOfForm(ts);
      FlattenOfItems(rest, close);
      assert ([first] + more)[1..] == more;
      Assoc(Flatten(first), FlattenAll(more), [Close(close)] + after);
    }
  }

  /** Parsing and flattening are inverse both ways: a token list parses to a forest exactly when it is
      that forest's flattening. */
  lemma {:induction false} ParsesIffFlattens(ts: seq<Lexeme>, forest: seq<Node>)
    ensures ParseForms(ts) == Some(forest) <==> ts == FlattenAll(forest)
    decreases |ts|
  {
    if ts == [] {
      assert forest != [] ==> FlattenAll(forest) != [];
    } else {
      if ParseForms(ts) == Some(forest) {
        var (first, rest) := ParseForm(ts).value;
        FlattenOfForm(ts);
        assert forest[1..] == ParseForms(rest).value;
        ParsesIffFlattens(rest, forest[1..]);
      }
      if ts == FlattenAll(forest) {
        FormOfFlatten(forest[0], FlattenAll(forest[1..]));
        ParsesIffFlattens(FlattenAll(forest[1..]), forest[1..]);
        assert forest == [forest[0]] + forest[1..];
      }
    }
  }

  // ----- balance, judged by one pass with a stack -----

  /** `stack` holds the brackets awaited, innermost first; `pending` that a reader macro still lacks
      its operand. */
  predicate Balanced(ts: seq<Lexeme>, stack: seq<Bracket>, pending: bool)
    decreases |ts|
  {
    if ts == [] then stack == [] && !pending
    else match ts[0]
      case Word(_) => Balanced(ts[1..], stack, false)
      case ReaderMacro => Balanced(ts[1..], stack, true)
      case Open(shape) => Balanced(ts[1..], [Closing(shape)] + stack, false)
      case Close(bracket) => !pending && stack != [] && stack[0] == bracket && Balanced(ts[1..], stack[1..], false)
  }

  lemma {:induction false} FormBalance(ts: seq<Lexeme>, stack: seq<Bracket>)
    ensures Balanced(ts, stack, true) == (ParseForm(ts).Some? && Balanced(ParseForm(ts).value.1, stack, false))
    decreases |ts|, 0
  {
    if ts != [] {
      match ts[0] {
        case Word(_) =>
        case ReaderMacro => FormBalance(ts[1..], stack);
        case Open(shape) => ItemsBalance(ts[1..], Closing(shape), stack);
        case Close(_) =>
      }
    }
  }

  lemma {:induction false} ItemsBalance(ts: seq<Lexeme>, close: Bracket, stack: seq<Bracket>)
    ensures Balanced(ts, [close] + stack, false) ==
            (ParseItems(ts, close).Some? && Balanced(ParseItems(ts, close).value.1, stack, false))
    decreases |ts|, 1
  {
    if ts != [] && !ts[0].Close? {
      FormBalance(ts, [close] + stack);
      assert Balanced(ts, [close] + stack, true) == Balanced(ts, [close] + stack, false);
      if ParseForm(ts).Some? { ItemsBalance(ParseForm(ts).value.1, close, stack); }
    } else {
      assert ([close] + stack)[1..] == stack;
    }
  }

  /** The recursive parser succeeds exactly on the balanced token lists. */
  lemma {:induction false} ParsesIffBalanced(ts: seq<Lexeme>)
    ensures ParseForms(ts).Some? == Balanced(ts, [], false)
    decreases |ts|
  {
    if ts != [] {
      FormBalance(ts, []);
      if ts[0].Close? {
        assert ParseForm(ts).None?;
      } else {
        assert Balanced(ts, [], true) == Balanced(ts, [], false);
        if ParseForm(ts).Some? { ParsesIffBalanced(ParseForm(ts).value.1); }
      }
    }
  }
}
