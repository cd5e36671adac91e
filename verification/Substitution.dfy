/** Property references `${name}` in Maven values and `$(name)` in MSBuild values: bounded substitution. */
module Substitution {
  import opened Text
  import opened Lists

  datatype Syntax = Maven | MsBuild {
    function Opening(): char { if this == Maven then '{' else '(' }
    function Closing(): char { if this == Maven then '}' else ')' }
  }

  /** A piece of a text: one character, or a reference. */
  datatype Piece = Literal(c: char) | Reference(name: string)

  datatype Properties = Properties(syntax: Syntax, values: map<string, string>) {
    predicate Defined(name: string) { name in values && values[name] != "" }

    predicate Resolvable(p: Piece) { p.Literal? || Defined(p.name) }

    predicate NoReferences(ps: seq<Piece>) { forall p :: p in ps ==> p.Literal? }

    predicate AllDefined(ps: seq<Piece>) { forall p :: p in ps ==> Resolvable(p) }
  }

  // ----- scanning -----

  /** The characters before the first closing mark, if there is one. */
  function UpTo(s: string, closing: char): (r: Option<string>)
    ensures r.Some? ==> closing !in r.value && r.value + [closing] <= s
  {
    if s == "" then None
    else if s[0] == closing then Some("")
    else
      var rest := UpTo(s[1..], closing);
      if rest.None? then None else Some([s[0]] + rest.value)
  }

  /** The name when a reference starts right here: at least one character, none of them the closing mark. */
  function NameAt(x: Syntax, s: string): (r: Option<string>)
    ensures r.Some? ==> r.value != "" && x.Closing() !in r.value && PieceText(x, Reference(r.value)) <= s
    ensures r.Some? ==> |r.value| + 3 <= |s|
  {
    if |s| < 2 || s[0] != '$' || s[1] != x.Opening() then None
    else
      var name := UpTo(s[2..], x.Closing());
      if name == Some("") then None else name
  }

  function PieceText(x: Syntax, p: Piece): string {
    match p
    case Literal(c) => [c]
    case Reference(name) => ['$', x.Opening()] + (name + [x.Closing()])
  }

  /** The leftmost matches of the reference expression, and the characters between them. */
  function Pieces(x: Syntax, s: string): seq<Piece> {
    if s == "" then []
    else
      var name := NameAt(x, s);
      if name.Some? then [Reference(name.value)] + Pieces(x, s[|name.value| + 3..])
      else [Literal(s[0])] + Pieces(x, s[1..])
  }

  function TextOf(x: Syntax, ps: seq<Piece>): string {
    if ps == [] then "" else PieceText(x, ps[0]) + TextOf(x, ps[1..])
  }

  lemma {:induction false} PiecesKeepText(x: Syntax, s: string)
    ensures TextOf(x, Pieces(x, s)) == s
  {
    if s != "" {
      var name := NameAt(x, s);
      if name.Some? {
        PiecesKeepText(x, s[|name.value| + 3..]);
        SplitPrefix(s, PieceText(x, Reference(name.value)));
      } else {
        PiecesKeepText(x, s[1..]);
      }
    }
  }

  // ----- one round -----

  /** A reference to a defined, non-empty property becomes its value; any other piece keeps its text. */
  function Replacement(props: Properties, p: Piece): string {
    if p.Reference? && props.Defined(p.name) then props.values[p.name] else PieceText(props.syntax, p)
  }

  function Replaced(props: Properties, ps: seq<Piece>): string {
    if ps == [] then "" else Replacement(props, ps[0]) + Replaced(props, ps[1..])
  }

  function Round(props: Properties, s: string): string { Replaced(props, Pieces(props.syntax, s)) }

  predicate ReferenceFree(props: Properties, s: string) { props.NoReferences(Pieces(props.syntax, s)) }

  predicate OnlyDefined(props: Properties, s: string) { props.AllDefined(Pieces(props.syntax, s)) }

  function Rounds(props: Properties, s: string, n: nat): string {
    if n == 0 then s else Round(props, Rounds(props, s, n - 1))
  }

  method ReplaceAll(props: Properties, s: string) returns (next: string, unresolved: bool, changed: bool)
    ensures next == Round(props, s)
    ensures unresolved <==> !OnlyDefined(props, s)
    ensures changed <==> exists p :: p in Pieces(props.syntax, s) && p.Reference? && props.Defined(p.name)
  {
    next, unresolved, changed := "", false, false;
    var i := 0;
    NoPieces(props);
    hide NameAt, Pieces, Replaced, PieceText;
    ghost var all := Pieces(props.syntax, s);
    ghost var done: seq<Piece> := [];
    assert s[0..] == s;
    while i < |s|
      invariant 0 <= i <= |s|
      invariant all == done + Pieces(props.syntax, s[i..])
      invariant Round(props, s) == next + Replaced(props, Pieces(props.syntax, s[i..]))
      invariant unresolved <==> !props.AllDefined(done)
      invariant changed <==> exists p :: p in done && p.Reference? && props.Defined(p.name)
    {
      var name := NameAt(props.syntax, s[i..]);
      ghost var before := next;
      if name.Some? {
        if props.Defined(name.value) {
          changed := true;
          next := next + props.values[name.value];
        } else {
          unresolved := true;
          next := next + PieceText(props.syntax, Reference(name.value));
        }
        OnePiece(props, s, i, |name.value| + 3, Reference(name.value), before);
        OneMoreDefined(props, done, Reference(name.value));
        done := done + [Reference(name.value)];
        i := i + |name.value| + 3;
      } else {
        next := next + [s[i]];
        OnePiece(props, s, i, 1, Literal(s[i]), before);
        OneMoreDefined(props, done, Literal(s[i]));
        done := done + [Literal(s[i])];
        i := i + 1;
      }
    }
    assert s[i..] == "" && done == all;
  }

  lemma OneMoreDefined(props: Properties, done: seq<Piece>, p: Piece)
    ensures props.AllDefined(done + [p]) <==> props.AllDefined(done) && props.Resolvable(p)
  {
    assert p in done + [p];
    assert forall x :: x in done ==> x in done + [p];
  }

  lemma NoPieces(props: Properties)
    ensures Pieces(props.syntax, "") == [] && Replaced(props, []) == ""
  {
  }

  lemma OnePiece(props: Properties, s: string, i: nat, taken: nat, p: Piece, before: string)
    requires i < |s| && i + taken <= |s|
    requires var name := NameAt(props.syntax, s[i..]);
             if name.Some? then p == Reference(name.value) && taken == |name.value| + 3 else p == Literal(s[i]) && taken == 1
    ensures Pieces(props.syntax, s[i..]) == [p] + Pieces(props.syntax, s[i + taken..])
    ensures p.Literal? ==> Replacement(props, p) == [p.c]
    ensures before + Replaced(props, Pieces(props.syntax, s[i..])) ==
            (before + Replacement(props, p)) + Replaced(props, Pieces(props.syntax, s[i + taken..]))
  {
    hide NameAt;
    var rest := Pieces(props.syntax, s[i + taken..]);
    assert s[i..][taken..] == s[i + taken..];
    assert ([p] + rest)[1..] == rest;
    Assoc(before, Replacement(props, p), Replaced(props, rest));
  }

  // ----- sixteen rounds -----

  const ROUNDS: nat := 16

  /** The n-th round is the first reference-free text, and every text before it names only defined properties. */
  ghost predicate SettlesAt(props: Properties, s: string, n: nat) {
    ReferenceFree(props, Rounds(props, s, n))
    && forall k :: 0 <= k < n ==> OnlyDefined(props, Rounds(props, s, k)) && !ReferenceFree(props, Rounds(props, s, k))
  }

  lemma StuckNeverSettles(props: Properties, s: string, stuck: nat, n: nat)
    requires forall k :: 0 <= k <= stuck ==> !ReferenceFree(props, Rounds(props, s, k))
    requires !OnlyDefined(props, Rounds(props, s, stuck))
    ensures !SettlesAt(props, s, n)
  {
  }

  lemma SettlesOnce(props: Properties, s: string, a: nat, b: nat)
    requires SettlesAt(props, s, b)
    ensures SettlesAt(props, s, a) ==> a == b
  {
  }

  /** Success means settling with one round to spare: the last of the sixteen only notices that nothing changed. */
  method ResolveValue(props: Properties, trimmed: string) returns (r: Option<string>)
    ensures r.Some? <==> exists n :: 0 <= n < ROUNDS && SettlesAt(props, trimmed, n)
    ensures forall n: nat :: r.Some? && SettlesAt(props, trimmed, n) ==> r.value == Rounds(props, trimmed, n)
  {
    hide Round, Pieces, ReferenceFree, OnlyDefined;
    var current := trimmed;
    for round := 0 to ROUNDS
      invariant current == Rounds(props, trimmed, round)
      invariant forall k :: 0 <= k < round ==> OnlyDefined(props, Rounds(props, trimmed, k)) && !ReferenceFree(props, Rounds(props, trimmed, k))
    {
      var next, unresolved, changed := ReplaceAll(props, current);
      RoundFacts(props, current, unresolved, changed);
      if unresolved {
        forall n: nat ensures !SettlesAt(props, trimmed, n) {
          StuckNeverSettles(props, trimmed, round, n);
        }
        return None;
      }
      if !changed {
        assert SettlesAt(props, trimmed, round);
        forall n: nat ensures SettlesAt(props, trimmed, n) ==> n == round {
          SettlesOnce(props, trimmed, n, round);
        }
        return Some(next);
      }
      current := next;
    }
    r := None;
  }

  lemma {:induction false} RoundFacts(props: Properties, s: string, unresolved: bool, changed: bool)
    requires unresolved <==> !OnlyDefined(props, s)
    requires changed <==> exists p :: p in Pieces(props.syntax, s) && p.Reference? && props.Defined(p.name)
    ensures unresolved ==> !ReferenceFree(props, s)
    ensures !unresolved ==> (changed <==> !ReferenceFree(props, s))
    ensures ReferenceFree(props, s) ==> Round(props, s) == s
  {
    if ReferenceFree(props, s) {
      NothingReplaced(props, Pieces(props.syntax, s));
      PiecesKeepText(props.syntax, s);
    }
  }

  lemma {:induction false} NothingReplaced(props: Properties, ps: seq<Piece>)
    requires props.NoReferences(ps)
    ensures Replaced(props, ps) == TextOf(props.syntax, ps)
  {
    if ps != [] {
      NothingReplaced(props, ps[1..]);
    }
  }
}
