/** Bounded substitution in texts whose parts may join into new references. */
module SubstitutionJoins {
  import opened Text
  import opened Lists
  import opened Substitution
  import opened SubstitutionChains

  // ----- any text at all, when names hold no '$' -----

  predicate PlainNames(props: Properties) { forall name :: name in props.values ==> '$' !in name }

  /** The first piece of a text. */
  function Head(x: Syntax, s: string): Piece
    requires s != ""
  {
    var name := NameAt(x, s);
    if name.Some? then Reference(name.value) else Literal(s[0])
  }

  lemma HeadFirst(x: Syntax, s: string) returns (rest: string)
    requires s != ""
    ensures s == PieceText(x, Head(x, s)) + rest && Pieces(x, s) == [Head(x, s)] + Pieces(x, rest) && |rest| < |s|
    ensures Head(x, s).Reference? ==> Head(x, s).name != "" && x.Closing() !in Head(x, s).name
  {
    rest := s[|PieceText(x, Head(x, s))|..];
    SplitPrefix(s, PieceText(x, Head(x, s)));
  }

  lemma {:induction false} PieceOccurs(x: Syntax, s: string, name: string) returns (before: string, rest: string)
    requires Reference(name) in Pieces(x, s)
    ensures s == before + (PieceText(x, Reference(name)) + rest) && name != "" && x.Closing() !in name
    decreases |s|
  {
    var tail := HeadFirst(x, s);
    var head := Head(x, s);
    hide Pieces, NameAt, PieceText, Head;
    if head == Reference(name) {
      before, rest := "", tail;
      assert s == before + s;
    } else {
      before, rest := PieceOccurs(x, tail, name);
      Assoc(PieceText(x, head), before, PieceText(x, Reference(name)) + rest);
      before := PieceText(x, head) + before;
    }
  }

  lemma SamePrefix(a: string, b: string, c: string, d: string)
    requires a + b == c + d && |a| <= |c|
    ensures b == c[|a|..] + d
  {
    assert b == (a + b)[|a|..];
    assert c[|a|..] + d == (c + d)[|a|..];
  }

  /** Written out anywhere in a text a reference is found, unless an earlier one swallows its '$'. */
  lemma {:induction false} OccurrenceFound(x: Syntax, before: string, name: string, rest: string)
    requires name != "" && x.Closing() !in name
    ensures var ps := Pieces(x, before + (PieceText(x, Reference(name)) + rest));
            Reference(name) in ps || exists m :: Reference(m) in ps && '$' in m
    decreases |before|
  {
    var tail := PieceText(x, Reference(name)) + rest;
    var s := before + tail;
    if before == "" {
      assert s == tail;
      FirstReference(x, name, rest);
    } else {
      assert s[|before|] == '$';
      var more := HeadFirst(x, s);
      var head := Head(x, s);
      HeadCovers(x, head);
      hide Pieces, NameAt, Head, PieceText;
      if |PieceText(x, head)| <= |before| {
        SamePrefix(PieceText(x, head), more, before, tail);
        OccurrenceFound(x, before[|PieceText(x, head)|..], name, rest);
      } else {
        assert PieceText(x, head)[|before|] == '$';
        assert head in Pieces(x, s);
      }
    }
  }

  /** Apart from its first character, a piece has a '$' only in its name. */
  lemma HeadCovers(x: Syntax, p: Piece)
    ensures PieceText(x, p) != ""
    ensures forall i :: 0 < i < |PieceText(x, p)| && PieceText(x, p)[i] == '$' ==> p.Reference? && '$' in p.name
  {
    forall i | 0 < i < |PieceText(x, p)| && PieceText(x, p)[i] == '$' ensures p.Reference? && '$' in p.name {
      assert p.name[i - 2] == '$';
    }
  }

  /** The value of a replaced reference is part of the next text. */
  lemma {:induction false} ValueInside(props: Properties, ps: seq<Piece>, p: Piece) returns (before: string, rest: string)
    requires p in ps
    ensures Replaced(props, ps) == before + (Replacement(props, p) + rest)
  {
    if ps[0] == p {
      before, rest := "", Replaced(props, ps[1..]);
    } else {
      before, rest := ValueInside(props, ps[1..], p);
      Assoc(Replacement(props, ps[0]), before, Replacement(props, p) + rest);
      before := Replacement(props, ps[0]) + before;
    }
  }

  /** A link survives the round, or leads to a name that no property has. */
  lemma LinkSurvives(props: Properties, s: string, name: string, next: string)
    requires Reference(name) in Pieces(props.syntax, s) && props.Defined(name)
    requires Reference(next) in Pieces(props.syntax, props.values[name])
    ensures var ps := Pieces(props.syntax, Round(props, s));
            Reference(next) in ps || exists m :: Reference(m) in ps && '$' in m
  {
    hide Pieces;
    var text := PieceText(props.syntax, Reference(next));
    var left, right := ValueInside(props, Pieces(props.syntax, s), Reference(name));
    var before, rest := PieceOccurs(props.syntax, props.values[name], next);
    Assoc(before, text + rest, right);
    Assoc(text, rest, right);
    Assoc(left, before, text + (rest + right));
    OccurrenceFound(props.syntax, left + before, next, rest + right);
  }

  /** Whatever the texts, settling after n rounds means that every chain ends within n links at defined properties. */
  lemma {:induction false} SettledChainsEnd(props: Properties, s: string, n: nat)
    requires PlainNames(props) && SettlesAt(props, s, n)
    ensures ChainsEnd(props, s, n)
    decreases n
  {
    hide Round, Pieces, Chain, SettlesAt;
    if n == 0 {
      SettledNow(props, s, 0);
      NoChains(props, s);
    } else {
      SettledNow(props, s, n);
      SettlesLater(props, s, n - 1);
      SettledNow(props, Round(props, s), n - 1);
      SettledChainsEnd(props, Round(props, s), n - 1);
      forall names | Chain(props, s, names) ensures names != [] && |names| <= n && props.Defined(names[|names| - 1]) {
        ChainFollows(props, s, names, n - 1);
      }
    }
  }

  lemma SettledNow(props: Properties, s: string, n: nat)
    requires SettlesAt(props, s, n)
    ensures OnlyDefined(props, s) && (ReferenceFree(props, s) <==> n == 0)
  {
    assert Rounds(props, s, 0) == s;
    hide Pieces;
  }

  lemma ChainFollows(props: Properties, s: string, names: seq<string>, n: nat)
    requires PlainNames(props) && OnlyDefined(props, s) && OnlyDefined(props, Round(props, s))
    requires Chain(props, s, names) && ChainsEnd(props, Round(props, s), n)
    ensures names != [] && |names| <= n + 1 && props.Defined(names[|names| - 1])
  {
    hide Pieces, Round;
    assert props.Resolvable(Reference(names[0]));
    if |names| > 1 {
      var rest := names[1..];
      ChainStep(props, s, names);
      LinkSurvives(props, s, names[0], rest[0]);
      assert forall m :: Reference(m) in Pieces(props.syntax, Round(props, s)) ==> props.Resolvable(Reference(m));
      ChainMoves(props, props.values[names[0]], Round(props, s), rest);
      assert |rest| <= n && props.Defined(rest[|rest| - 1]);
    }
  }

  // ----- exactly when the result is the full expansion -----

  /** Every reference has a name that could have been scanned. */
  predicate Named(x: Syntax, ps: seq<Piece>) {
    forall p :: p in ps && p.Reference? ==> p.name != "" && x.Closing() !in p.name
  }

  lemma {:induction false} PiecesNamed(x: Syntax, s: string)
    ensures Named(x, Pieces(x, s))
    decreases |s|
  {
    if s != "" {
      var rest := HeadFirst(x, s);
      PiecesNamed(x, rest);
      hide Pieces, NameAt, PieceText, Head;
    }
  }

  lemma OpenedNamed(props: Properties, ps: seq<Piece>)
    requires Named(props.syntax, ps)
    ensures Named(props.syntax, FlatMap(Opened(props), ps))
  {
    hide Pieces, FlatMap;
    forall q | q in FlatMap(Opened(props), ps) && q.Reference? ensures q.name != "" && props.syntax.Closing() !in q.name {
      FlatMapMember(Opened(props), ps, q);
      var p :| p in ps && q in Opened(props)(p);
      if p.Reference? && props.Defined(p.name) { PiecesNamed(props.syntax, props.values[p.name]); }
    }
  }

  /** Text without a '$' comes from literals. */
  lemma {:induction false} LiteralRun(x: Syntax, ps: seq<Piece>, k: nat)
    requires k <= |TextOf(x, ps)| && '$' !in TextOf(x, ps)[..k]
    ensures k <= |ps| && TextOf(x, ps[..k]) == TextOf(x, ps)[..k] && forall p :: p in ps[..k] ==> p.Literal?
  {
    if k > 0 {
      var s := TextOf(x, ps);
      assert s[..k][0] == s[0];
      assert ps[0].Literal?;
      assert s[1..] == TextOf(x, ps[1..]) && s[..k][1..] == s[1..][..k - 1];
      LiteralRun(x, ps[1..], k - 1);
      assert ps[..k] == [ps[0]] + ps[1..][..k - 1];
      assert ps[..k][1..] == ps[1..][..k - 1];
      assert s[..k] == [s[0]] + s[1..][..k - 1];
    }
  }

  /** Pieces `middle`, all literal, spell a reference. */
  ghost predicate Spells(x: Syntax, ps: seq<Piece>, before: seq<Piece>, middle: seq<Piece>, rest: seq<Piece>, name: string) {
    && ps == before + (middle + rest) && name != "" && x.Closing() !in name
    && TextOf(x, middle) == PieceText(x, Reference(name)) && forall p :: p in middle ==> p.Literal?
  }

  lemma SpellsLater(x: Syntax, p: Piece, ps: seq<Piece>, before: seq<Piece>, middle: seq<Piece>, rest: seq<Piece>, name: string)
    requires Spells(x, ps, before, middle, rest, name)
    ensures Spells(x, [p] + ps, [p] + before, middle, rest, name)
  {
    hide TextOf, PieceText;
    assert [p] + (before + (middle + rest)) == ([p] + before) + (middle + rest);
  }

  /** Pieces that read differently together: literals spell a reference, or a name swallows a '$'. */
  lemma {:induction false} Misread(x: Syntax, ps: seq<Piece>)
    returns (before: seq<Piece>, middle: seq<Piece>, rest: seq<Piece>, name: string)
    requires Named(x, ps) && Pieces(x, TextOf(x, ps)) != ps
    ensures Spells(x, ps, before, middle, rest, name)
            || exists m :: Reference(m) in Pieces(x, TextOf(x, ps)) && '$' in m
  {
    var s, p, more := TextOf(x, ps), ps[0], TextOf(x, ps[1..]);
    assert ps == [p] + ps[1..];
    if p.Literal? && NameAt(x, s).Some? {
      before := [];
      middle, rest, name := SpelledHere(x, ps);
    } else {
      TailMisread(x, ps);
      before, middle, rest, name := Misread(x, ps[1..]);
      hide Pieces, NameAt, TextOf, Spells;
      if Spells(x, ps[1..], before, middle, rest, name) {
        SpellsLater(x, p, ps[1..], before, middle, rest, name);
        before := [p] + before;
      }
    }
  }

  lemma TailMisread(x: Syntax, ps: seq<Piece>)
    requires ps != [] && Named(x, ps) && Pieces(x, TextOf(x, ps)) != ps
    requires ps[0].Reference? || NameAt(x, TextOf(x, ps)).None?
    ensures Pieces(x, TextOf(x, ps[1..])) != ps[1..]
    ensures forall q :: q in Pieces(x, TextOf(x, ps[1..])) ==> q in Pieces(x, TextOf(x, ps))
  {
    var p, more := ps[0], TextOf(x, ps[1..]);
    assert ps == [p] + ps[1..];
    if p.Reference? {
      FirstReference(x, p.name, more);
    } else {
      assert ([p.c] + more)[1..] == more;
    }
  }

  lemma SpelledHere(x: Syntax, ps: seq<Piece>) returns (middle: seq<Piece>, rest: seq<Piece>, name: string)
    requires ps != [] && ps[0].Literal? && NameAt(x, TextOf(x, ps)).Some?
    ensures Spells(x, ps, [], middle, rest, name)
            || exists m :: Reference(m) in Pieces(x, TextOf(x, ps)) && '$' in m
  {
    var s := TextOf(x, ps);
    name := NameAt(x, s).value;
    var k := |name| + 2;
    middle, rest := [], [];
    if '$' in name {
      assert Reference(name) in Pieces(x, s);
    } else {
      assert s[1..] == TextOf(x, ps[1..]);
      NoDollar(x, name);
      assert s[..k + 1] == PieceText(x, Reference(name)) && s[1..][..k] == s[..k + 1][1..];
      LiteralRun(x, ps[1..], k);
      middle, rest := [ps[0]] + ps[1..][..k], ps[1..][k..];
      assert middle[1..] == ps[1..][..k] && ps == [] + (middle + rest);
      assert TextOf(x, middle) == [s[0]] + s[1..][..k];
      assert [s[0]] + s[1..][..k] == s[..k + 1];
    }
  }

  lemma NoDollar(x: Syntax, name: string)
    requires '$' !in name
    ensures '$' !in PieceText(x, Reference(name))[1..]
  {
    var tail := PieceText(x, Reference(name))[1..];
    assert tail == [x.Opening()] + (name + [x.Closing()]);
  }

  /** What literals spell is still there after full expansion. */
  lemma SpelledStays(props: Properties, ps: seq<Piece>, before: seq<Piece>, middle: seq<Piece>, rest: seq<Piece>,
                     name: string, depth: nat)
    requires Spells(props.syntax, ps, before, middle, rest, name)
    ensures !ReferenceFree(props, Expansion(props, ps, depth))
  {
    hide Pieces, Expansion, TextOf, PieceText;
    ExpansionAppend(props, before, middle + rest, depth);
    ExpansionAppend(props, middle, rest, depth);
    ExpansionOfLiterals(props, middle, depth);
    OccurrenceFound(props.syntax, Expansion(props, before, depth), name, Expansion(props, rest, depth));
  }

  /** When the settled text is the full expansion, no round read anything but what went into it. */
  lemma {:induction false} FullExpansionRescans(props: Properties, s: string, n: nat, depth: nat, rounds: nat)
    requires PlainNames(props) && SettlesAt(props, s, n) && n <= depth
    requires Rounds(props, s, n) == Expansion(props, Pieces(props.syntax, s), depth)
    ensures RescansFor(props, s, rounds)
    decreases rounds
  {
    hide Pieces, FlatMap, Round, SettlesAt, Expansion, Rescans;
    if rounds > 0 {
      SettledNow(props, s, n);
      if n == 0 {
        NothingToRescan(props, s);
        FullExpansionRescans(props, s, n, depth, rounds - 1);
      } else {
        var t := Round(props, s);
        SettlesLater(props, s, n - 1);
        RoundsShift(props, s, n - 1);
        ExpansionAfterRound(props, Pieces(props.syntax, s), depth - 1);
        FinalIsFree(props, s, n);
        SettledNow(props, t, n - 1);
        FaithfulRound(props, s, depth - 1);
        assert Pieces(props.syntax, t) == FlatMap(Opened(props), Pieces(props.syntax, s)) by { RescansMeans(props, s); }
        FullExpansionRescans(props, t, n - 1, depth - 1, rounds - 1);
      }
    }
  }

  lemma RescansMeans(props: Properties, s: string)
    requires Rescans(props, s)
    ensures Pieces(props.syntax, Round(props, s)) == FlatMap(Opened(props), Pieces(props.syntax, s))
  {
  }

  lemma FinalIsFree(props: Properties, s: string, n: nat)
    requires SettlesAt(props, s, n)
    ensures ReferenceFree(props, Rounds(props, s, n))
  {
  }

  lemma NothingToRescan(props: Properties, s: string)
    requires ReferenceFree(props, s)
    ensures Rescans(props, s) && Round(props, s) == s
  {
    hide Pieces, FlatMap;
    NothingReplaced(props, Pieces(props.syntax, s));
    PiecesKeepText(props.syntax, s);
    LiteralsUnopened(props, Pieces(props.syntax, s));
  }

  lemma FaithfulRound(props: Properties, s: string, depth: nat)
    requires PlainNames(props) && OnlyDefined(props, Round(props, s))
    requires ReferenceFree(props, Expansion(props, FlatMap(Opened(props), Pieces(props.syntax, s)), depth))
    ensures Rescans(props, s)
  {
    hide Pieces, FlatMap, Replaced, TextOf, Expansion, Spells;
    var ps := Pieces(props.syntax, s);
    var all := FlatMap(Opened(props), ps);
    ReplacedIsOpened(props, ps);
    PiecesNamed(props.syntax, s);
    OpenedNamed(props, ps);
    if Pieces(props.syntax, TextOf(props.syntax, all)) != all {
      var before, middle, rest, name := Misread(props.syntax, all);
      assert forall m :: Reference(m) in Pieces(props.syntax, Round(props, s)) ==> props.Resolvable(Reference(m));
      SpelledStays(props, all, before, middle, rest, name, depth);
      assert false;
    }
  }

  /** With plain names, exactly: the resolver succeeds with the full expansion if and only if every chain ends
      within fifteen links and every round reads again just the pieces that went into its text. */
  lemma ExactResolution(props: Properties, s: string, depth: nat)
    requires PlainNames(props) && depth >= ROUNDS - 1
    ensures (exists n :: 0 <= n < ROUNDS && SettlesAt(props, s, n)
                         && Rounds(props, s, n) == Expansion(props, Pieces(props.syntax, s), depth))
            <==> ChainsEnd(props, s, ROUNDS - 1) && RescansFor(props, s, ROUNDS - 1)
  {
    hide SettlesAt, ChainsEnd, Rounds, Expansion, Pieces, RescansFor, PlainNames;
    if n :| 0 <= n < ROUNDS && SettlesAt(props, s, n) && Rounds(props, s, n) == Expansion(props, Pieces(props.syntax, s), depth) {
      FullExpansionRescans(props, s, n, depth, ROUNDS - 1);
      RescannedResolution(props, s, depth);
    }
    if ChainsEnd(props, s, ROUNDS - 1) && RescansFor(props, s, ROUNDS - 1) {
      RescannedResolution(props, s, depth);
    }
  }

  /** A cycle that the text can reach is always reported as failure: in any text when names are plain, and with
      any names in a tame text. */
  lemma ReachableCycleFails(props: Properties, s: string, names: seq<string>, i: nat, j: nat, n: nat)
    requires PlainNames(props) || (TameText(props.syntax, s) && TameProperties(props))
    requires Chain(props, s, names) && i < j < |names| && names[i] == names[j]
    ensures !SettlesAt(props, s, n)
  {
    hide SettlesAt, SettlesWithin, ChainsEnd, Chain, TameText, TameProperties;
    CycleNeverEnds(props, s, names, i, j, n);
    if SettlesAt(props, s, n) {
      if PlainNames(props) {
        SettledChainsEnd(props, s, n);
      } else {
        WithinIff(props, s, n);
        SettlesIffChainsEnd(props, s, n);
      }
    }
  }

  // ----- joined references -----

  /** Two properties whose values join into a reference to a third one. */
  predicate Joining(props: Properties) {
    && "a" in props.values && props.values["a"] == ['$']
    && "b" in props.values && props.values["b"] == [props.syntax.Opening(), 'c', props.syntax.Closing()]
  }

  function JoiningText(x: Syntax): string {
    PieceText(x, Reference("a")) + (PieceText(x, Reference("b")) + "")
  }

  lemma LiteralPieces(x: Syntax, c: char, rest: string)
    requires c != '$' || rest == ""
    ensures Pieces(x, [c] + rest) == [Literal(c)] + Pieces(x, rest)
  {
    assert ([c] + rest)[1..] == rest;
  }

  lemma JoiningPieces(x: Syntax)
    ensures Pieces(x, JoiningText(x)) == [Reference("a"), Reference("b")]
    ensures Pieces(x, PieceText(x, Reference("c"))) == [Reference("c")]
    ensures Pieces(x, ['$']) == [Literal('$')]
    ensures Pieces(x, [x.Opening(), 'c', x.Closing()]) == [Literal(x.Opening()), Literal('c'), Literal(x.Closing())]
    ensures Pieces(x, "x") == [Literal('x')]
  {
    var empty: string := "";
    assert Pieces(x, empty) == [];
    FirstReference(x, "b", empty);
    FirstReference(x, "a", PieceText(x, Reference("b")) + empty);
    FirstReference(x, "c", empty);
    JoiningLiterals(x);
    hide Pieces;
    assert PieceText(x, Reference("c")) + empty == PieceText(x, Reference("c"));
  }

  lemma JoiningLiterals(x: Syntax)
    ensures Pieces(x, ['$']) == [Literal('$')]
    ensures Pieces(x, [x.Opening(), 'c', x.Closing()]) == [Literal(x.Opening()), Literal('c'), Literal(x.Closing())]
    ensures Pieces(x, "x") == [Literal('x')]
  {
    var open, close := x.Opening(), x.Closing();
    var empty: string := "";
    assert Pieces(x, empty) == [];
    LiteralPieces(x, '$', empty);
    LiteralPieces(x, 'x', empty);
    LiteralPieces(x, close, empty);
    LiteralPieces(x, 'c', [close] + empty);
    LiteralPieces(x, open, ['c'] + ([close] + empty));
    hide Pieces;
    assert ['$'] + empty == ['$'] && ['x'] + empty == "x";
    assert [open] + (['c'] + ([close] + empty)) == [open, 'c', close];
  }

  lemma JoiningRound(props: Properties)
    requires Joining(props)
    ensures Round(props, JoiningText(props.syntax)) == PieceText(props.syntax, Reference("c"))
  {
    JoiningPieces(props.syntax);
    hide Pieces;
    var ps := [Reference("a"), Reference("b")];
    assert ps[1..] == [Reference("b")] && ps[1..][1..] == [];
    assert Replaced(props, ps[1..]) == props.values["b"] + "";
  }

  lemma JoiningChains(props: Properties)
    requires Joining(props)
    ensures ChainsEnd(props, JoiningText(props.syntax), 1)
  {
    JoiningPieces(props.syntax);
    hide Pieces;
    forall names | Chain(props, JoiningText(props.syntax), names)
      ensures names != [] && |names| <= 1 && props.Defined(names[|names| - 1])
    {
      if |names| > 1 { ValuesHoldNoReference(props, names); }
    }
  }

  lemma ValuesHoldNoReference(props: Properties, names: seq<string>)
    requires Joining(props) && |names| > 1 && (names[0] == "a" || names[0] == "b")
    ensures !LinkAt(props, names, 0)
  {
    JoiningPieces(props.syntax);
    hide Pieces;
  }

  lemma JoiningExpansion(props: Properties, depth: nat)
    requires Joining(props) && depth > 0
    ensures Expansion(props, Pieces(props.syntax, JoiningText(props.syntax)), depth) == PieceText(props.syntax, Reference("c"))
  {
    JoiningPieces(props.syntax);
    hide JoiningText, Pieces;
    LiteralValueExpands(props, "a", depth);
    LiteralValueExpands(props, "b", depth);
    hide Pieces, ExpansionOf;
    var ps := [Reference("a"), Reference("b")];
    assert ps[1..] == [Reference("b")] && ps[1..][1..] == [];
    assert Expansion(props, ps[1..], depth) == props.values["b"] + Expansion(props, [], depth);
  }

  lemma LiteralValueExpands(props: Properties, name: string, depth: nat)
    requires props.Defined(name) && ReferenceFree(props, props.values[name]) && depth > 0
    ensures ExpansionOf(props, Reference(name), depth) == props.values[name]
  {
    ExpansionOfLiterals(props, Pieces(props.syntax, props.values[name]), depth - 1);
    PiecesKeepText(props.syntax, props.values[name]);
  }

  /** Outside tame texts both halves fail: all chains end, yet the values join into a reference that full
      expansion never sees. If its property exists the result differs from the expansion, and if it does not
      the resolver fails. */
  lemma JoinedReferenceEscapes(props: Properties, depth: nat)
    requires Joining(props) && depth > 0
    ensures var s := JoiningText(props.syntax);
            && ChainsEnd(props, s, 1)
            && ("c" in props.values && props.values["c"] == "x" ==>
                  SettlesAt(props, s, 2) && Rounds(props, s, 2) == "x"
                  && Expansion(props, Pieces(props.syntax, s), depth) == PieceText(props.syntax, Reference("c")))
            && (!props.Defined("c") ==> forall n :: !SettlesAt(props, s, n))
  {
    JoiningChains(props);
    JoiningExpansion(props, depth);
    hide Pieces, Expansion, ChainsEnd, SettlesAt, Rounds, JoiningText;
    if "c" in props.values && props.values["c"] == "x" { JoinedSettles(props); }
    if !props.Defined("c") { JoinedSticks(props); }
  }

  lemma JoinedSettles(props: Properties)
    requires Joining(props) && "c" in props.values && props.values["c"] == "x"
    ensures var s := JoiningText(props.syntax); SettlesAt(props, s, 2) && Rounds(props, s, 2) == "x"
  {
    var x, s := props.syntax, JoiningText(props.syntax);
    var joined := PieceText(x, Reference("c"));
    JoiningPieces(x);
    JoiningRound(props);
    OneReference(props, "c");
    hide Pieces, Round, JoiningText, PieceText, SettlesAt, Rounds;
    assert Reference("a") in Pieces(x, s) && Reference("c") in Pieces(x, joined);
    SettlesSecond(props, s);
  }

  lemma SettlesSecond(props: Properties, s: string)
    requires OnlyDefined(props, s) && !ReferenceFree(props, s)
    requires OnlyDefined(props, Round(props, s)) && !ReferenceFree(props, Round(props, s))
    requires ReferenceFree(props, Round(props, Round(props, s)))
    ensures SettlesAt(props, s, 2) && Rounds(props, s, 2) == Round(props, Round(props, s))
  {
    TwoRounds(props, s);
    hide Round, Rounds, OnlyDefined, ReferenceFree;
  }

  lemma TwoRounds(props: Properties, s: string)
    ensures Rounds(props, s, 0) == s && Rounds(props, s, 1) == Round(props, s)
    ensures Rounds(props, s, 2) == Round(props, Round(props, s))
  {
    hide Round;
    assert Rounds(props, s, 1) == Round(props, Rounds(props, s, 0));
  }

  lemma OneReference(props: Properties, name: string)
    requires props.Defined(name) && name != "" && props.syntax.Closing() !in name
    ensures Round(props, PieceText(props.syntax, Reference(name))) == props.values[name]
  {
    var empty: string := "";
    FirstReference(props.syntax, name, empty);
    assert Pieces(props.syntax, empty) == [];
    hide Pieces;
    var ps := [Reference(name)];
    assert PieceText(props.syntax, ps[0]) + empty == PieceText(props.syntax, ps[0]) && ps + [] == ps;
    assert ps[1..] == [] && Replaced(props, ps[1..]) == empty && props.values[name] + empty == props.values[name];
  }

  lemma JoinedSticks(props: Properties)
    requires Joining(props) && !props.Defined("c")
    ensures forall n :: !SettlesAt(props, JoiningText(props.syntax), n)
  {
    var x, s := props.syntax, JoiningText(props.syntax);
    var joined := PieceText(x, Reference("c"));
    JoiningPieces(x);
    JoiningRound(props);
    TwoRounds(props, s);
    hide Pieces, Round, JoiningText, PieceText, Rounds, SettlesAt;
    assert Reference("a") in Pieces(x, s) && Reference("c") in Pieces(x, joined);
    forall n: nat ensures !SettlesAt(props, s, n) {
      StuckNeverSettles(props, s, 1, n);
    }
  }
}
