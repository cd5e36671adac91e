/** What resolving a value does to its text, round by round, stated on the texts alone. */
module SubstitutionRuns {
  import opened Text
  import opened Lists
  import opened Substitution
  import opened SubstitutionChains
  import opened SubstitutionJoins

  // ----- references in a text -----

  /** A reference as it is written. */
  function Mark(x: Syntax, name: string): string {
    match x
    case Maven => "${" + (name + "}")
    case MsBuild => "$(" + (name + ")")
  }

  predicate IsName(x: Syntax, name: string) { name != "" && (if x == Maven then '}' else ')') !in name }

  ghost predicate Begins(x: Syntax, s: string) { exists name, rest :: IsName(x, name) && s == Mark(x, name) + rest }

  ghost predicate Refers(x: Syntax, s: string) {
    exists before, name, rest :: IsName(x, name) && s == before + (Mark(x, name) + rest)
  }

  function Written(x: Syntax, ps: seq<Piece>): string {
    if ps == [] then "" else (if ps[0].Literal? then [ps[0].c] else Mark(x, ps[0].name)) + Written(x, ps[1..])
  }

  /** A character at which no reference begins, or a reference with a proper name. */
  ghost predicate CutsAt(x: Syntax, ps: seq<Piece>, k: nat)
    requires k < |ps|
  {
    if ps[k].Literal? then !Begins(x, Written(x, ps[k..])) else IsName(x, ps[k].name)
  }

  /** The text cut into references and the characters between them. */
  ghost predicate IsCut(x: Syntax, s: string, ps: seq<Piece>) {
    s == Written(x, ps) && forall k :: 0 <= k < |ps| ==> CutsAt(x, ps, k)
  }

  lemma MarkIs(x: Syntax, name: string)
    ensures Mark(x, name) == PieceText(x, Reference(name)) && (IsName(x, name) <==> name != "" && x.Closing() !in name)
  {
  }

  lemma {:induction false} WrittenIs(x: Syntax, ps: seq<Piece>)
    ensures Written(x, ps) == TextOf(x, ps)
  {
    if ps != [] {
      if ps[0].Reference? { MarkIs(x, ps[0].name); }
      WrittenIs(x, ps[1..]);
    }
  }

  lemma BeginsIff(x: Syntax, s: string)
    ensures Begins(x, s) <==> NameAt(x, s).Some?
  {
    if NameAt(x, s).Some? {
      var name := NameAt(x, s).value;
      MarkIs(x, name);
      SplitPrefix(s, Mark(x, name));
    }
    if name, rest :| IsName(x, name) && s == Mark(x, name) + rest {
      MarkIs(x, name);
      NameFound(x, name, rest);
    }
  }

  lemma NameFound(x: Syntax, name: string, rest: string)
    requires name != "" && x.Closing() !in name
    ensures NameAt(x, PieceText(x, Reference(name)) + rest) == Some(name)
  {
    var s := PieceText(x, Reference(name)) + rest;
    assert s[2..] == name + ([x.Closing()] + rest);
    UpToFinds(name, x.Closing(), rest);
  }

  lemma {:induction false} PiecesCut(x: Syntax, s: string, k: nat)
    requires k < |Pieces(x, s)|
    ensures CutsAt(x, Pieces(x, s), k)
    decreases |s|
  {
    if k > 0 {
      var ps := Pieces(x, s);
      var rest := HeadFirst(x, s);
      hide Pieces, NameAt, PieceText, Begins, Written;
      assert ps[1..] == Pieces(x, rest);
      PiecesCut(x, rest, k - 1);
      assert ps[1..][k - 1..] == ps[k..] && ps[1..][k - 1] == ps[k];
    } else {
      FirstCut(x, s);
    }
  }

  lemma FirstCut(x: Syntax, s: string)
    requires Pieces(x, s) != []
    ensures CutsAt(x, Pieces(x, s), 0)
  {
    var ps := Pieces(x, s);
    assert s != "";
    WrittenIs(x, ps);
    PiecesKeepText(x, s);
    var rest := HeadFirst(x, s);
    BeginsIff(x, s);
    hide Pieces, NameAt, PieceText, Begins, Written;
    assert ps[0..] == ps && ps[0] == Head(x, s);
    if ps[0].Reference? { MarkIs(x, ps[0].name); }
  }

  lemma {:induction false} CutIsPieces(x: Syntax, ps: seq<Piece>)
    requires forall k :: 0 <= k < |ps| ==> CutsAt(x, ps, k)
    ensures Pieces(x, Written(x, ps)) == ps
  {
    if ps != [] {
      var rest := ps[1..];
      assert CutsAt(x, ps, 0) && ps[0..] == ps;
      forall k | 0 <= k < |rest| ensures CutsAt(x, rest, k) {
        assert CutsAt(x, ps, k + 1) && ps[k + 1..] == rest[k..];
      }
      CutIsPieces(x, rest);
      hide Begins;
      if ps[0].Reference? {
        MarkIs(x, ps[0].name);
        FirstReference(x, ps[0].name, Written(x, rest));
      } else {
        var s := Written(x, ps);
        BeginsIff(x, s);
        assert s[1..] == Written(x, rest);
      }
      assert ps == [ps[0]] + rest;
    }
  }

  /** There is exactly one cutting: the pieces of the leftmost references. */
  lemma CutIff(x: Syntax, s: string, ps: seq<Piece>)
    ensures IsCut(x, s, ps) <==> ps == Pieces(x, s)
  {
    hide Pieces, Written, Begins;
    if IsCut(x, s, ps) {
      CutIsPieces(x, ps);
    }
    if ps == Pieces(x, s) {
      WrittenIs(x, ps);
      PiecesKeepText(x, s);
      forall k | 0 <= k < |ps| ensures CutsAt(x, ps, k) { PiecesCut(x, s, k); }
    }
  }

  lemma RefersIff(x: Syntax, s: string)
    ensures Refers(x, s) <==> exists p :: p in Pieces(x, s) && p.Reference?
  {
    hide Pieces, PieceText, Mark, IsName;
    if p :| p in Pieces(x, s) && p.Reference? {
      var before, rest := PieceOccurs(x, s, p.name);
      MarkIs(x, p.name);
      assert IsName(x, p.name) && s == before + (Mark(x, p.name) + rest);
    }
    if before, name, rest :| IsName(x, name) && s == before + (Mark(x, name) + rest) {
      MarkIs(x, name);
      OccurrenceFound(x, before, name, rest);
    }
  }

  // ----- rounds and runs -----

  predicate Given(values: map<string, string>, name: string) { name in values && values[name] != "" }

  /** The text with values in the place of references. */
  function Filled(values: map<string, string>, ps: seq<Piece>): string {
    if ps == [] then ""
    else
      (match ps[0] case Literal(c) => [c] case Reference(name) => if name in values then values[name] else "")
      + Filled(values, ps[1..])
  }

  ghost predicate Fillable(values: map<string, string>, ps: seq<Piece>) {
    (exists p :: p in ps && p.Reference?) && forall p :: p in ps && p.Reference? ==> Given(values, p.name)
  }

  /** One round: the text has references, all to properties with non-empty values, which take their places. */
  ghost predicate Step(x: Syntax, values: map<string, string>, s: string, t: string) {
    exists ps :: IsCut(x, s, ps) && Fillable(values, ps) && t == Filled(values, ps)
  }

  /** At most 15 rounds lead from `s` to `t`, which has no references. */
  ghost predicate Resolves(x: Syntax, values: map<string, string>, s: string, t: string) {
    exists texts: seq<string> ::
      && 1 <= |texts| <= 16 && texts[0] == s && texts[|texts| - 1] == t && !Refers(x, t)
      && forall k :: 0 <= k < |texts| - 1 ==> Step(x, values, texts[k], texts[k + 1])
  }

  lemma {:induction false} FilledIs(props: Properties, ps: seq<Piece>)
    requires forall p :: p in ps && p.Reference? ==> Given(props.values, p.name)
    ensures Filled(props.values, ps) == Replaced(props, ps)
  {
    if ps != [] {
      assert ps[0] in ps;
      FilledIs(props, ps[1..]);
    }
  }

  lemma StepIff(props: Properties, s: string, t: string)
    ensures Step(props.syntax, props.values, s, t) <==> OnlyDefined(props, s) && !ReferenceFree(props, s) && t == Round(props, s)
  {
    var x, ps := props.syntax, Pieces(props.syntax, s);
    CutIff(x, s, ps);
    forall p: Piece ensures p.Reference? ==> (Given(props.values, p.name) <==> props.Defined(p.name)) {
    }
    hide IsCut, Filled, Replaced, Pieces, Given;
    if OnlyDefined(props, s) {
      FilledIs(props, ps);
    }
    if other :| IsCut(x, s, other) && Fillable(props.values, other) && t == Filled(props.values, other) {
      CutIff(x, s, other);
      assert props.AllDefined(ps);
    }
  }

  /** Resolution succeeds with a text exactly when at most 15 such rounds lead to it; the sixteenth round only notices. */
  lemma ResolvesIff(props: Properties, s: string, t: string)
    ensures Resolves(props.syntax, props.values, s, t) <==>
            exists n: nat :: n < ROUNDS && SettlesAt(props, s, n) && t == Rounds(props, s, n)
  {
    hide Step, Refers, Round, OnlyDefined, ReferenceFree;
    var x := props.syntax;
    if n: nat :| n < ROUNDS && SettlesAt(props, s, n) && t == Rounds(props, s, n) {
      RunOf(props, s, n);
    }
    if texts: seq<string> :| (1 <= |texts| <= 16 && texts[0] == s && texts[|texts| - 1] == t && !Refers(x, t)
                              && forall k :: 0 <= k < |texts| - 1 ==> Step(x, props.values, texts[k], texts[k + 1])) {
      RunIsRounds(props, texts);
    }
  }

  lemma FreeIff(props: Properties, s: string)
    ensures ReferenceFree(props, s) <==> !Refers(props.syntax, s)
  {
    RefersIff(props.syntax, s);
    hide Pieces, Refers;
  }

  lemma RunOf(props: Properties, s: string, n: nat)
    requires n < ROUNDS && SettlesAt(props, s, n)
    ensures Resolves(props.syntax, props.values, s, Rounds(props, s, n))
  {
    hide Step, Refers, OnlyDefined, ReferenceFree, Rounds;
    var texts := seq(n + 1, k requires 0 <= k < n + 1 => Rounds(props, s, k));
    forall k | 0 <= k < |texts| - 1 ensures Step(props.syntax, props.values, texts[k], texts[k + 1]) {
      StepOfRun(props, s, k, n);
    }
    FreeIff(props, Rounds(props, s, n));
    NoRounds(props, s);
    assert texts[0] == s && texts[|texts| - 1] == Rounds(props, s, n);
  }

  lemma NoRounds(props: Properties, s: string)
    ensures Rounds(props, s, 0) == s
  {
  }

  lemma StepOfRun(props: Properties, s: string, k: nat, n: nat)
    requires k < n && SettlesAt(props, s, n)
    ensures Step(props.syntax, props.values, Rounds(props, s, k), Rounds(props, s, k + 1))
  {
    hide Step, OnlyDefined, ReferenceFree, Round;
    StepIff(props, Rounds(props, s, k), Rounds(props, s, k + 1));
  }

  lemma {:induction false} RoundsAre(props: Properties, texts: seq<string>, k: nat)
    requires k < |texts| && forall j :: 0 <= j < |texts| - 1 ==> Step(props.syntax, props.values, texts[j], texts[j + 1])
    ensures texts[k] == Rounds(props, texts[0], k)
    ensures k < |texts| - 1 ==> OnlyDefined(props, texts[k]) && !ReferenceFree(props, texts[k])
  {
    hide Step, Round, OnlyDefined, ReferenceFree;
    if k < |texts| - 1 { StepIff(props, texts[k], texts[k + 1]); }
    if k > 0 {
      RoundsAre(props, texts, k - 1);
      StepIff(props, texts[k - 1], texts[k]);
    }
  }

  lemma RunIsRounds(props: Properties, texts: seq<string>)
    requires 1 <= |texts| <= ROUNDS && !Refers(props.syntax, texts[|texts| - 1])
    requires forall j :: 0 <= j < |texts| - 1 ==> Step(props.syntax, props.values, texts[j], texts[j + 1])
    ensures SettlesAt(props, texts[0], |texts| - 1) && texts[|texts| - 1] == Rounds(props, texts[0], |texts| - 1)
  {
    hide Step, Refers, Rounds, OnlyDefined, ReferenceFree;
    forall k | 0 <= k < |texts|
      ensures texts[k] == Rounds(props, texts[0], k)
      ensures k < |texts| - 1 ==> OnlyDefined(props, texts[k]) && !ReferenceFree(props, texts[k])
    {
      RoundsAre(props, texts, k);
    }
    FreeIff(props, texts[|texts| - 1]);
  }
}
