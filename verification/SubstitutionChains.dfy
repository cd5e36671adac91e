/** When bounded substitution succeeds, in terms of chains of property references. */
module SubstitutionChains {
  import opened Text
  import opened Lists
  import opened Substitution

  // ----- texts whose references cannot be made by joining -----

  /** A '$' before `rest` never becomes the start of a reference, whatever replaces the references of `rest`:
      a character other than the opening mark follows, or an empty name does. At the loose end of a text, where
      nothing can be appended, it is enough that no reference and no closing mark follows. */
  predicate Stays(x: Syntax, rest: seq<Piece>, loose: bool) {
    || (rest != [] && rest[0].Literal?
        && (rest[0].c == x.Opening() ==> |rest| > 1 && rest[1] == Literal(x.Closing())))
    || (loose && forall p :: p in rest ==> p.Literal? && p.c != x.Closing())
  }

  predicate WellFormed(x: Syntax, p: Piece, rest: seq<Piece>, loose: bool) {
    match p
    case Literal(c) => c == '$' ==> Stays(x, rest, loose)
    case Reference(name) => name != "" && x.Closing() !in name
  }

  /** Every '$' that starts no reference stays that way. */
  predicate Tame(x: Syntax, ps: seq<Piece>, loose: bool) {
    ps != [] ==> WellFormed(x, ps[0], ps[1..], loose) && Tame(x, ps[1..], loose)
  }

  predicate TameText(x: Syntax, s: string) { Tame(x, Pieces(x, s), true) }

  /** Property values are put in the middle of texts, so their ends are not loose. */
  ghost predicate TameProperties(props: Properties) {
    forall n :: props.Defined(n) ==> Tame(props.syntax, Pieces(props.syntax, props.values[n]), false)
  }

  lemma {:induction false} TameAppend(x: Syntax, a: seq<Piece>, b: seq<Piece>, loose: bool)
    requires Tame(x, a, false) && Tame(x, b, loose)
    ensures Tame(x, a + b, loose)
  {
    if a == [] {
      assert a + b == b;
    } else {
      TameAppend(x, a[1..], b, loose);
      assert (a + b)[1..] == a[1..] + b;
    }
  }

  lemma {:induction false} UpToFinds(name: string, closing: char, rest: string)
    requires closing !in name
    ensures UpTo(name + ([closing] + rest), closing) == Some(name)
  {
    var s := name + ([closing] + rest);
    if name != "" {
      assert s[1..] == name[1..] + ([closing] + rest);
      UpToFinds(name[1..], closing, rest);
      assert [name[0]] + name[1..] == name;
    }
  }

  lemma {:induction false} UpToMisses(s: string, closing: char)
    requires closing !in s
    ensures UpTo(s, closing) == None
  {
    if s != "" {
      UpToMisses(s[1..], closing);
    }
  }

  lemma {:induction false} LiteralsOnly(x: Syntax, ps: seq<Piece>, c: char)
    requires forall p :: p in ps ==> p.Literal? && p.c != c
    ensures c !in TextOf(x, ps)
  {
    if ps != [] {
      LiteralsOnly(x, ps[1..], c);
    }
  }

  lemma {:induction false} PiecesOfText(x: Syntax, ps: seq<Piece>, loose: bool)
    requires Tame(x, ps, loose)
    ensures Pieces(x, TextOf(x, ps)) == ps
  {
    if ps != [] {
      PiecesOfText(x, ps[1..], loose);
      FirstPiece(x, ps[0], ps[1..], loose);
      assert ps == [ps[0]] + ps[1..];
    }
  }

  lemma FirstPiece(x: Syntax, p: Piece, rest: seq<Piece>, loose: bool)
    requires WellFormed(x, p, rest, loose)
    ensures Pieces(x, PieceText(x, p) + TextOf(x, rest)) == [p] + Pieces(x, TextOf(x, rest))
  {
    var tail := TextOf(x, rest);
    match p
    case Literal(c) =>
      if c == '$' { DollarStays(x, rest, loose); }
      assert ([c] + tail)[1..] == tail;
    case Reference(name) =>
      FirstReference(x, name, tail);
  }

  lemma FirstReference(x: Syntax, name: string, rest: string)
    requires name != "" && x.Closing() !in name
    ensures Pieces(x, PieceText(x, Reference(name)) + rest) == [Reference(name)] + Pieces(x, rest)
  {
    var s := PieceText(x, Reference(name)) + rest;
    assert s[2..] == name + ([x.Closing()] + rest);
    UpToFinds(name, x.Closing(), rest);
    assert NameAt(x, s) == Some(name);
    assert s[|name| + 3..] == rest;
  }

  lemma DollarStays(x: Syntax, rest: seq<Piece>, loose: bool)
    requires Stays(x, rest, loose)
    ensures NameAt(x, ['$'] + TextOf(x, rest)) == None
  {
    var tail := TextOf(x, rest);
    var s := ['$'] + tail;
    if |s| >= 2 && s[1] == x.Opening() {
      assert s[2..] == tail[1..];
      if rest != [] && rest[0].Literal? && rest[0].c == x.Opening() && |rest| > 1 && rest[1] == Literal(x.Closing()) {
        assert tail[1] == x.Closing();
      } else {
        LiteralsOnly(x, rest, x.Closing());
        UpToMisses(s[2..], x.Closing());
      }
    }
  }

  lemma {:induction false} TextOfAppend(x: Syntax, a: seq<Piece>, b: seq<Piece>)
    ensures TextOf(x, a + b) == TextOf(x, a) + TextOf(x, b)
  {
    if a == [] {
      assert a + b == b;
    } else {
      assert (a + b)[1..] == a[1..] + b;
      TextOfAppend(x, a[1..], b);
      Assoc(PieceText(x, a[0]), TextOf(x, a[1..]), TextOf(x, b));
    }
  }

  // ----- a round, piece by piece -----

  function Opened(props: Properties): Piece -> seq<Piece> {
    (p: Piece) => if p.Reference? && props.Defined(p.name) then Pieces(props.syntax, props.values[p.name]) else [p]
  }

  lemma {:induction false} ReplacedIsOpened(props: Properties, ps: seq<Piece>)
    ensures Replaced(props, ps) == TextOf(props.syntax, FlatMap(Opened(props), ps))
  {
    var f := Opened(props);
    if ps != [] {
      hide FlatMap;
      ReplacedIsOpened(props, ps[1..]);
      assert ps == [ps[0]] + ps[1..];
      FlatMapCons(f, ps[0], ps[1..]);
      TextOfAppend(props.syntax, f(ps[0]), FlatMap(f, ps[1..]));
      ReplacementIsOpened(props, ps[0]);
    }
  }

  lemma ReplacementIsOpened(props: Properties, p: Piece)
    ensures Replacement(props, p) == TextOf(props.syntax, Opened(props)(p))
  {
    if p.Reference? && props.Defined(p.name) {
      PiecesKeepText(props.syntax, props.values[p.name]);
    } else {
      assert PieceText(props.syntax, p) + "" == PieceText(props.syntax, p);
    }
  }

  lemma {:induction false} LiteralsUnopened(props: Properties, ps: seq<Piece>)
    requires props.NoReferences(ps)
    ensures FlatMap(Opened(props), ps) == ps
  {
    hide Pieces;
    if ps != [] {
      LiteralsUnopened(props, Init(ps));
      FlatMapLast(Opened(props), ps);
      hide FlatMap;
      assert Last(ps) in ps && ps == Init(ps) + [Last(ps)];
    }
  }

  lemma StaysOpened(props: Properties, rest: seq<Piece>, loose: bool)
    requires Stays(props.syntax, rest, loose)
    ensures Stays(props.syntax, FlatMap(Opened(props), rest), loose)
  {
    hide Pieces;
    if loose && forall p :: p in rest ==> p.Literal? && p.c != props.syntax.Closing() {
      LiteralsUnopened(props, rest);
    } else {
      LiteralFirst(props, rest);
      if |rest| > 1 && rest[1].Literal? { LiteralFirst(props, rest[1..]); }
      hide FlatMap;
    }
  }

  lemma LiteralFirst(props: Properties, rest: seq<Piece>)
    requires rest != [] && rest[0].Literal?
    ensures FlatMap(Opened(props), rest) == [rest[0]] + FlatMap(Opened(props), rest[1..])
  {
    assert rest == [rest[0]] + rest[1..];
    FlatMapCons(Opened(props), rest[0], rest[1..]);
    hide FlatMap, Pieces;
  }

  /** Opening the references of a tame text leaves it tame. */
  lemma {:induction false} OpenedTame(props: Properties, ps: seq<Piece>, loose: bool)
    requires Tame(props.syntax, ps, loose) && TameProperties(props)
    ensures Tame(props.syntax, FlatMap(Opened(props), ps), loose)
    decreases |ps|
  {
    var f := Opened(props);
    if ps != [] {
      var p, rest := ps[0], FlatMap(f, ps[1..]);
      OpenedTame(props, ps[1..], loose);
      FlatMapCons(f, p, ps[1..]);
      assert ps == [p] + ps[1..];
      if p == Literal('$') { StaysOpened(props, ps[1..], loose); }
      hide FlatMap, Stays, Pieces;
      if p.Reference? && props.Defined(p.name) {
        TameAppend(props.syntax, f(p), rest, loose);
      } else {
        assert ([p] + rest)[1..] == rest;
      }
    }
  }

  lemma RoundOpens(props: Properties, s: string)
    requires TameText(props.syntax, s) && TameProperties(props)
    ensures Pieces(props.syntax, Round(props, s)) == FlatMap(Opened(props), Pieces(props.syntax, s))
    ensures TameText(props.syntax, Round(props, s))
  {
    hide FlatMap, Pieces, TextOf, Replaced, Tame;
    var ps := Pieces(props.syntax, s);
    OpenedTame(props, ps, true);
    ReplacedIsOpened(props, ps);
    PiecesOfText(props.syntax, FlatMap(Opened(props), ps), true);
  }

  /** Reading the next text again finds exactly the pieces that went into it. */
  ghost predicate Rescans(props: Properties, s: string) {
    Pieces(props.syntax, Round(props, s)) == FlatMap(Opened(props), Pieces(props.syntax, s))
  }

  /** In each of the first n rounds. */
  ghost predicate RescansFor(props: Properties, s: string, n: nat)
    decreases n
  {
    n > 0 ==> Rescans(props, s) && RescansFor(props, Round(props, s), n - 1)
  }

  lemma {:induction false} TameRescans(props: Properties, s: string, n: nat)
    requires TameText(props.syntax, s) && TameProperties(props)
    ensures RescansFor(props, s, n)
    decreases n
  {
    if n > 0 {
      hide FlatMap, Pieces, Round, TameText;
      RoundOpens(props, s);
      TameRescans(props, Round(props, s), n - 1);
    }
  }

  lemma {:induction false} RescansForFewer(props: Properties, s: string, n: nat, k: nat)
    requires RescansFor(props, s, n) && k <= n
    ensures RescansFor(props, s, k)
    decreases k
  {
    if k > 0 {
      hide Round, Rescans;
      RescansForFewer(props, Round(props, s), n - 1, k - 1);
    }
  }

  // ----- settling, from the front -----

  ghost predicate SettlesWithin(props: Properties, s: string, n: nat)
    decreases n
  {
    ReferenceFree(props, s) || (n > 0 && OnlyDefined(props, s) && SettlesWithin(props, Round(props, s), n - 1))
  }

  lemma {:induction false} RoundsShift(props: Properties, s: string, n: nat)
    ensures Rounds(props, s, n + 1) == Rounds(props, Round(props, s), n)
  {
    hide Round;
    if n > 0 {
      RoundsShift(props, s, n - 1);
    }
  }

  lemma SettlesLater(props: Properties, s: string, n: nat)
    requires !ReferenceFree(props, s)
    ensures SettlesAt(props, s, n + 1) <==> OnlyDefined(props, s) && SettlesAt(props, Round(props, s), n)
  {
    var t := Round(props, s);
    assert Rounds(props, s, 0) == s;
    hide Round, ReferenceFree, OnlyDefined, Rounds;
    forall k: nat ensures Rounds(props, s, k + 1) == Rounds(props, t, k) {
      RoundsShift(props, s, k);
    }
    if SettlesAt(props, s, n + 1) {
      forall k | 0 <= k < n ensures OnlyDefined(props, Rounds(props, t, k)) && !ReferenceFree(props, Rounds(props, t, k)) {
        assert Rounds(props, s, k + 1) == Rounds(props, t, k);
      }
      assert OnlyDefined(props, Rounds(props, s, 0));
    }
    if OnlyDefined(props, s) && SettlesAt(props, t, n) {
      forall k | 0 <= k < n + 1 ensures OnlyDefined(props, Rounds(props, s, k)) && !ReferenceFree(props, Rounds(props, s, k)) {
        if k > 0 { assert Rounds(props, s, k) == Rounds(props, t, k - 1); }
      }
    }
  }

  lemma {:induction false} WithinIff(props: Properties, s: string, n: nat)
    ensures SettlesWithin(props, s, n) <==> exists k :: 0 <= k <= n && SettlesAt(props, s, k)
    decreases n
  {
    hide Round, ReferenceFree, OnlyDefined;
    if ReferenceFree(props, s) {
      assert SettlesAt(props, s, 0);
    } else {
      assert !SettlesAt(props, s, 0);
      var t := Round(props, s);
      hide Rounds, SettlesAt;
      if n > 0 { WithinIff(props, t, n - 1); }
      if SettlesWithin(props, s, n) {
        var k :| 0 <= k <= n - 1 && SettlesAt(props, t, k);
        SettlesLater(props, s, k);
        assert SettlesAt(props, s, k + 1);
      }
      if k :| 0 <= k <= n && SettlesAt(props, s, k) {
        SettlesLater(props, s, k - 1);
        assert 0 <= k - 1 <= n - 1;
      }
    }
  }

  // ----- chains of references -----

  /** The k-th name's value refers to the name after it. */
  ghost predicate LinkAt(props: Properties, names: seq<string>, k: nat)
    requires k + 1 < |names|
  {
    props.Defined(names[k]) && Reference(names[k + 1]) in Pieces(props.syntax, props.values[names[k]])
  }

  /** Each name is referred to by the value of the one before, the first by the text itself. */
  ghost predicate Chain(props: Properties, s: string, names: seq<string>) {
    && names != [] && Reference(names[0]) in Pieces(props.syntax, s)
    && forall k :: 0 <= k < |names| - 1 ==> LinkAt(props, names, k)
  }

  /** Every chain from the text has at most n links and names only defined, non-empty properties. */
  ghost predicate ChainsEnd(props: Properties, s: string, n: nat) {
    forall names :: Chain(props, s, names) ==> names != [] && |names| <= n && props.Defined(names[|names| - 1])
  }

  lemma ChainStart(props: Properties, s: string, name: string)
    requires Reference(name) in Pieces(props.syntax, s)
    ensures exists names :: Chain(props, s, names) && names == [name]
  {
    assert Chain(props, s, [name]);
  }

  lemma ChainStep(props: Properties, s: string, names: seq<string>)
    requires |names| > 1
    ensures Chain(props, s, names) <==>
            && Reference(names[0]) in Pieces(props.syntax, s) && props.Defined(names[0])
            && Chain(props, props.values[names[0]], names[1..])
  {
    hide Pieces;
    var rest := names[1..];
    if Chain(props, s, names) {
      assert LinkAt(props, names, 0);
      forall k | 0 <= k < |rest| - 1 ensures LinkAt(props, rest, k) {
        assert LinkAt(props, names, k + 1);
      }
    }
    if Reference(names[0]) in Pieces(props.syntax, s) && props.Defined(names[0]) && Chain(props, props.values[names[0]], rest) {
      forall k | 0 <= k < |names| - 1 ensures LinkAt(props, names, k) {
        if k > 0 { assert LinkAt(props, rest, k - 1); }
      }
    }
  }

  /** After a round the chains are those of the text without their first link. */
  lemma ChainsAfterRound(props: Properties, s: string, names: seq<string>)
    requires Rescans(props, s) && OnlyDefined(props, s)
    ensures Chain(props, Round(props, s), names) <==> exists first :: Chain(props, s, [first] + names) && names != []
  {
    hide Round, Pieces, FlatMap;
    var ps := Pieces(props.syntax, s);
    if names != [] {
      FlatMapMember(Opened(props), ps, Reference(names[0]));
      if Chain(props, Round(props, s), names) {
        var p :| p in ps && Reference(names[0]) in Opened(props)(p);
        assert props.Resolvable(p);
        ChainMoves(props, Round(props, s), props.values[p.name], names);
        ChainStep(props, s, [p.name] + names);
        assert ([p.name] + names)[1..] == names;
      }
      if first :| Chain(props, s, [first] + names) {
        ChainStep(props, s, [first] + names);
        assert ([first] + names)[1..] == names;
        assert Reference(names[0]) in Opened(props)(Reference(first));
        ChainMoves(props, props.values[first], Round(props, s), names);
      }
    }
  }

  lemma ChainMoves(props: Properties, s: string, t: string, names: seq<string>)
    requires Chain(props, s, names) && Reference(names[0]) in Pieces(props.syntax, t)
    ensures Chain(props, t, names)
  {
  }

  lemma {:induction false} ChainsIff(props: Properties, s: string, n: nat)
    requires RescansFor(props, s, n)
    ensures SettlesWithin(props, s, n) <==> ChainsEnd(props, s, n)
    decreases n
  {
    hide Round, Pieces, Chain, Rescans;
    if ReferenceFree(props, s) {
      NoChains(props, s);
    } else {
      var p :| p in Pieces(props.syntax, s) && p.Reference?;
      ChainStart(props, s, p.name);
      if n > 0 {
        ChainsIff(props, Round(props, s), n - 1);
        if ChainsEnd(props, s, n) { ChainsShorten(props, s, n); }
        if OnlyDefined(props, s) && ChainsEnd(props, Round(props, s), n - 1) { ChainsLengthen(props, s, n); }
      }
    }
  }

  /** Settling within n rounds means that every chain ends within n links. */
  lemma SettlesIffChainsEnd(props: Properties, s: string, n: nat)
    requires TameText(props.syntax, s) && TameProperties(props)
    ensures SettlesWithin(props, s, n) <==> ChainsEnd(props, s, n)
  {
    hide SettlesWithin, ChainsEnd, TameText, TameProperties, RescansFor;
    TameRescans(props, s, n);
    ChainsIff(props, s, n);
  }

  lemma NoChains(props: Properties, s: string)
    requires ReferenceFree(props, s)
    ensures forall n :: ChainsEnd(props, s, n)
  {
    hide Pieces;
  }

  lemma ChainsShorten(props: Properties, s: string, n: nat)
    requires Rescans(props, s) && n > 0 && ChainsEnd(props, s, n)
    ensures OnlyDefined(props, s) && ChainsEnd(props, Round(props, s), n - 1)
  {
    hide Round, Pieces, Chain, Rescans;
    ChainsDefined(props, s, n);
    forall names | Chain(props, Round(props, s), names)
      ensures names != [] && |names| <= n - 1 && props.Defined(names[|names| - 1])
    {
      ChainsAfterRound(props, s, names);
      var first :| Chain(props, s, [first] + names);
      var whole := [first] + names;
      assert |whole| <= n && props.Defined(whole[|whole| - 1]);
    }
  }

  lemma ChainsLengthen(props: Properties, s: string, n: nat)
    requires Rescans(props, s) && n > 0
    requires OnlyDefined(props, s) && ChainsEnd(props, Round(props, s), n - 1)
    ensures ChainsEnd(props, s, n)
  {
    hide Round, Pieces, Rescans;
    forall names | Chain(props, s, names) ensures |names| <= n && props.Defined(names[|names| - 1]) {
      assert props.Resolvable(Reference(names[0]));
      if |names| > 1 {
        var rest := names[1..];
        assert [names[0]] + rest == names;
        ChainsAfterRound(props, s, rest);
        assert |rest| <= n - 1 && props.Defined(rest[|rest| - 1]);
      }
    }
  }

  lemma ChainsDefined(props: Properties, s: string, n: nat)
    requires ChainsEnd(props, s, n)
    ensures OnlyDefined(props, s)
  {
    hide Pieces;
    forall p | p in Pieces(props.syntax, s) ensures props.Resolvable(p) {
      if p.Reference? {
        ChainStart(props, s, p.name);
      }
    }
  }

  // ----- full recursive expansion -----

  /** Expansion of every reference, nested at most `depth` deep. */
  function Expansion(props: Properties, ps: seq<Piece>, depth: nat): string
    decreases depth, |ps|
  {
    if ps == [] then "" else ExpansionOf(props, ps[0], depth) + Expansion(props, ps[1..], depth)
  }

  function ExpansionOf(props: Properties, p: Piece, depth: nat): string
    decreases depth, 0
  {
    if p.Reference? && props.Defined(p.name) && depth > 0
    then Expansion(props, Pieces(props.syntax, props.values[p.name]), depth - 1)
    else PieceText(props.syntax, p)
  }

  lemma {:induction false} ExpansionAppend(props: Properties, a: seq<Piece>, b: seq<Piece>, depth: nat)
    ensures Expansion(props, a + b, depth) == Expansion(props, a, depth) + Expansion(props, b, depth)
    decreases |a|
  {
    if a == [] {
      assert a + b == b;
    } else {
      hide ExpansionOf;
      assert (a + b)[1..] == a[1..] + b;
      ExpansionAppend(props, a[1..], b, depth);
      Assoc(ExpansionOf(props, a[0], depth), Expansion(props, a[1..], depth), Expansion(props, b, depth));
    }
  }

  lemma {:induction false} ExpansionAfterRound(props: Properties, ps: seq<Piece>, depth: nat)
    requires props.AllDefined(ps)
    ensures Expansion(props, ps, depth + 1) == Expansion(props, FlatMap(Opened(props), ps), depth)
    decreases |ps|
  {
    var f := Opened(props);
    if ps != [] {
      hide FlatMap;
      ExpansionAfterRound(props, ps[1..], depth);
      assert ps == [ps[0]] + ps[1..];
      FlatMapCons(f, ps[0], ps[1..]);
      ExpansionAppend(props, f(ps[0]), FlatMap(f, ps[1..]), depth);
      assert props.Resolvable(ps[0]);
      OneOpened(props, ps[0], depth);
    }
  }

  lemma OneOpened(props: Properties, p: Piece, depth: nat)
    requires props.Resolvable(p)
    ensures ExpansionOf(props, p, depth + 1) == Expansion(props, Opened(props)(p), depth)
  {
    if p.Literal? {
      assert [p][1..] == [];
      assert [p.c] + "" == [p.c];
    }
  }

  lemma {:induction false} ExpansionOfLiterals(props: Properties, ps: seq<Piece>, depth: nat)
    requires props.NoReferences(ps)
    ensures Expansion(props, ps, depth) == TextOf(props.syntax, ps)
    decreases |ps|
  {
    if ps != [] {
      ExpansionOfLiterals(props, ps[1..], depth);
    }
  }

  /** The settled text is the full expansion, however deep the expansion is allowed to go. */
  lemma {:induction false} SettledIsExpansion(props: Properties, s: string, n: nat, depth: nat)
    requires RescansFor(props, s, n) && SettlesAt(props, s, n) && n <= depth
    ensures Rounds(props, s, n) == Expansion(props, Pieces(props.syntax, s), depth)
    decreases n
  {
    hide Pieces, Round, FlatMap;
    if n == 0 {
      ExpansionOfLiterals(props, Pieces(props.syntax, s), depth);
      PiecesKeepText(props.syntax, s);
    } else {
      var t := Round(props, s);
      assert !ReferenceFree(props, Rounds(props, s, 0));
      SettlesLater(props, s, n - 1);
      SettledIsExpansion(props, t, n - 1, depth - 1);
      RoundsShift(props, s, n - 1);
      ExpansionAfterRound(props, Pieces(props.syntax, s), depth - 1);
    }
  }

  // ----- the bounded resolver -----

  lemma RescannedResolution(props: Properties, s: string, depth: nat)
    requires RescansFor(props, s, ROUNDS - 1) && depth >= ROUNDS - 1
    ensures (exists n :: 0 <= n < ROUNDS && SettlesAt(props, s, n)) <==> ChainsEnd(props, s, ROUNDS - 1)
    ensures forall n :: 0 <= n < ROUNDS && SettlesAt(props, s, n) ==>
              Rounds(props, s, n) == Expansion(props, Pieces(props.syntax, s), depth)
  {
    hide SettlesAt, SettlesWithin, ChainsEnd, Rounds, Expansion, Pieces, RescansFor;
    WithinIff(props, s, ROUNDS - 1);
    ChainsIff(props, s, ROUNDS - 1);
    forall n | 0 <= n < ROUNDS && SettlesAt(props, s, n)
      ensures Rounds(props, s, n) == Expansion(props, Pieces(props.syntax, s), depth)
    {
      RescansForFewer(props, s, ROUNDS - 1, n);
      SettledIsExpansion(props, s, n, depth);
    }
  }

  /** What sixteen rounds achieve on tame texts: success exactly when every chain of references ends within
      fifteen links, naming only defined, non-empty properties; and then the full recursive expansion. */
  lemma BoundedResolution(props: Properties, s: string, depth: nat)
    requires TameText(props.syntax, s) && TameProperties(props) && depth >= ROUNDS - 1
    ensures (exists n :: 0 <= n < ROUNDS && SettlesAt(props, s, n)) <==> ChainsEnd(props, s, ROUNDS - 1)
    ensures forall n :: 0 <= n < ROUNDS && SettlesAt(props, s, n) ==>
              Rounds(props, s, n) == Expansion(props, Pieces(props.syntax, s), depth)
  {
    hide SettlesAt, ChainsEnd, Rounds, Expansion, Pieces, RescansFor, TameText, TameProperties;
    TameRescans(props, s, ROUNDS - 1);
    RescannedResolution(props, s, depth);
  }

  lemma Spliced(props: Properties, s: string, names: seq<string>, i: nat, j: nat) returns (longer: seq<string>)
    requires Chain(props, s, names) && i < j < |names| && names[i] == names[j]
    ensures Chain(props, s, longer) && |longer| > |names| && j < |longer| && longer[i] == longer[j]
  {
    hide Pieces;
    longer := names[..j] + names[i..];
    forall k | 0 <= k < |longer| - 1 ensures LinkAt(props, longer, k) {
      if k + 1 < j {
        assert LinkAt(props, names, k);
      } else {
        assert longer[k + 1] == names[k + 1 - j + i];
        if k + 1 > j {
          assert LinkAt(props, names, k - j + i);
        } else {
          assert LinkAt(props, names, k);
        }
      }
    }
  }

  lemma {:induction false} CycleNeverEnds(props: Properties, s: string, names: seq<string>, i: nat, j: nat, n: nat)
    requires Chain(props, s, names) && i < j < |names| && names[i] == names[j]
    ensures !ChainsEnd(props, s, n)
    decreases n - |names|
  {
    if |names| <= n {
      var longer := Spliced(props, s, names, i, j);
      CycleNeverEnds(props, s, longer, i, j, n);
    }
  }
}
