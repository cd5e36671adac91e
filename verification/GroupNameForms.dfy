/** What a group's file component looks like: sanitised runs, trimmed locations, decimal suffixes. */
module GroupNameForms {
  import opened Text
  import opened Lists
  import opened GroupNames

  // ----- sanitising, run by run -----

  /** A run of safe characters, or a run of others. */
  datatype Stretch = Stretch(text: string, safe: bool)

  predicate StretchOk(t: Stretch) { t.text != "" && forall i :: 0 <= i < |t.text| ==> (Portable(t.text[i]) <==> t.safe) }

  /** ASCII letters and digits, dash, underscore and dot. */
  predicate Portable(c: char) { 'a' <= c <= 'z' || 'A' <= c <= 'Z' || '0' <= c <= '9' || c in {'-', '_', '.'} }

  /** Longest possible runs: kinds alternate. */
  predicate Alternates(ts: seq<Stretch>) {
    (forall t :: t in ts ==> StretchOk(t)) && forall i :: 0 < i < |ts| ==> ts[i - 1].safe != ts[i].safe
  }

  function Plain(t: Stretch): string { t.text }

  /** Safe runs stay, any other becomes one dash. */
  function Dashed(t: Stretch): string { if t.safe then t.text else "-" }

  lemma {:induction false} SafeRun(text: string, rest: string, inRun: bool)
    requires text != "" && forall i :: 0 <= i < |text| ==> SafeChar(text[i])
    ensures Replaced(text + rest, inRun) == text + Replaced(rest, false)
  {
    assert (text + rest)[1..] == text[1..] + rest && text == [text[0]] + text[1..];
    if |text| == 1 {
      assert text[1..] + rest == rest;
    } else {
      SafeRun(text[1..], rest, false);
      Assoc([text[0]], text[1..], Replaced(rest, false));
    }
  }

  lemma {:induction false} UnsafeRun(text: string, rest: string, inRun: bool)
    requires text != "" && forall i :: 0 <= i < |text| ==> !SafeChar(text[i])
    ensures Replaced(text + rest, inRun) == (if inRun then "" else "-") + Replaced(rest, true)
  {
    assert (text + rest)[1..] == text[1..] + rest;
    if |text| == 1 {
      assert text[1..] + rest == rest;
    } else {
      UnsafeRun(text[1..], rest, true);
    }
    assert "" + Replaced(rest, true) == Replaced(rest, true);
  }

  lemma {:induction false} RunsReplaced(ts: seq<Stretch>, inRun: bool)
    requires Alternates(ts) && (inRun && ts != [] ==> ts[0].safe)
    ensures Replaced(FlatMap(Plain, ts), inRun) == FlatMap(Dashed, ts)
  {
    if ts == [] {
      FlatMapNil(Plain);
      FlatMapNil(Dashed);
    } else {
      assert ts == [ts[0]] + ts[1..];
      FlatMapCons(Plain, ts[0], ts[1..]);
      FlatMapCons(Dashed, ts[0], ts[1..]);
      hide FlatMap, Replaced;
      assert ts[0] in ts;
      RunsReplaced(ts[1..], !ts[0].safe);
      if ts[0].safe {
        SafeRun(ts[0].text, FlatMap(Plain, ts[1..]), inRun);
      } else {
        UnsafeRun(ts[0].text, FlatMap(Plain, ts[1..]), inRun);
      }
    }
  }

  lemma {:induction false} RunsExist(value: string) returns (ts: seq<Stretch>)
    ensures Alternates(ts) && FlatMap(Plain, ts) == value
  {
    if value == "" {
      ts := [];
    } else {
      var more := RunsExist(value[1..]);
      hide FlatMap, Alternates;
      assert value == [value[0]] + value[1..];
      if more != [] && more[0].safe == Portable(value[0]) {
        ts := RunGrown(value[0], more);
      } else {
        ts := RunAdded(value[0], more);
      }
    }
  }

  lemma RunGrown(c: char, more: seq<Stretch>) returns (ts: seq<Stretch>)
    requires Alternates(more) && more != [] && more[0].safe == Portable(c)
    ensures Alternates(ts) && FlatMap(Plain, ts) == [c] + FlatMap(Plain, more)
  {
    hide FlatMap;
    var first := Stretch([c] + more[0].text, Portable(c));
    ts := [first] + more[1..];
    GrownAlternates(c, more);
    hide Alternates, Portable;
    assert more == [more[0]] + more[1..];
    FlatMapCons(Plain, more[0], more[1..]);
    FlatMapCons(Plain, first, more[1..]);
    Assoc([c], more[0].text, FlatMap(Plain, more[1..]));
  }

  lemma GrownAlternates(c: char, more: seq<Stretch>)
    requires Alternates(more) && more != [] && more[0].safe == Portable(c)
    ensures Alternates([Stretch([c] + more[0].text, Portable(c))] + more[1..])
  {
    hide Portable;
    var first := Stretch([c] + more[0].text, Portable(c));
    var ts := [first] + more[1..];
    assert StretchOk(more[0]);
    assert StretchOk(first);
    assert forall i :: 0 < i < |ts| ==> ts[i] == more[i];
    forall t | t in ts ensures StretchOk(t) {
      assert t == first || t in more;
    }
    forall i | 0 < i < |ts| ensures ts[i - 1].safe != ts[i].safe {
      assert more[i - 1].safe != more[i].safe;
    }
  }

  lemma RunAdded(c: char, more: seq<Stretch>) returns (ts: seq<Stretch>)
    requires Alternates(more) && (more != [] ==> more[0].safe != Portable(c))
    ensures Alternates(ts) && FlatMap(Plain, ts) == [c] + FlatMap(Plain, more)
  {
    hide FlatMap;
    var first := Stretch([c], Portable(c));
    ts := [first] + more;
    FlatMapCons(Plain, first, more);
    forall i | 0 < i < |ts| ensures ts[i - 1].safe != ts[i].safe {
      assert ts[i] == more[i - 1] && (i > 1 ==> ts[i - 1] == more[i - 2]);
    }
  }

  /** Sanitising keeps safe runs, puts one dash for each other run, and avoids the reserved names. */
  ghost predicate Sanitised(value: string, component: string) {
    exists ts :: Alternates(ts) && FlatMap(Plain, ts) == value
                 && component == if FlatMap(Dashed, ts) in {"", ".", ".."} then "group" else FlatMap(Dashed, ts)
  }

  lemma SanitisedIff(value: string, component: string)
    ensures component == SafeComponent(value) <==> Sanitised(value, component)
  {
    hide FlatMap, Alternates;
    var runs := RunsExist(value);
    RunsReplaced(runs, false);
    if ts :| (Alternates(ts) && FlatMap(Plain, ts) == value
              && component == if FlatMap(Dashed, ts) in {"", ".", ".."} then "group" else FlatMap(Dashed, ts)) {
      RunsReplaced(ts, false);
    }
  }

  // ----- locations -----

  predicate Edge(s: string) { forall i :: 0 <= i < |s| ==> s[i] in {'-', '.'} }

  /** The sanitised location without its first dot, stripped of dashes and dots at both ends; `root` stands for `group`. */
  ghost predicate TrimmedLocation(location: string, component: string) {
    exists left, core, right ::
      && SafeComponent(if location != "" && location[0] == '.' then location[1..] else location) == left + (core + right)
      && Edge(left) && Edge(right) && (core != "" ==> core[0] !in {'-', '.'} && core[|core| - 1] !in {'-', '.'})
      && component == if core == "group" then "root" else core
  }

  lemma {:induction false} RightTrimmed(s: string) returns (right: string)
    ensures s == TrimRight(s) + right && Edge(right) && (TrimRight(s) != "" ==> TrimRight(s)[|TrimRight(s)| - 1] !in {'-', '.'})
  {
    if s != [] && Trimmable(Last(s)) {
      right := RightTrimmed(Init(s));
      Assoc(TrimRight(Init(s)), right, [Last(s)]);
      assert s == Init(s) + [Last(s)];
      right := right + [Last(s)];
    } else {
      right := "";
    }
  }

  lemma TrimmedParts(s: string) returns (left: string, right: string)
    ensures var core := TrimRight(TrimLeft(s));
            && s == left + (core + right) && Edge(left) && Edge(right)
            && (core != "" ==> core[0] !in {'-', '.'} && core[|core| - 1] !in {'-', '.'})
  {
    hide TrimLeft, TrimRight, Edge;
    left := LeftEdge(s);
    right := RightTrimmed(TrimLeft(s));
    StartStays(TrimLeft(s));
  }

  lemma {:induction false} LeftEdge(s: string) returns (left: string)
    ensures s == left + TrimLeft(s) && Edge(left) && (TrimLeft(s) != "" ==> TrimLeft(s)[0] !in {'-', '.'})
  {
    TrimLeftStep(s);
    hide TrimLeft;
    if s != [] && Trimmable(s[0]) {
      var more := LeftEdge(s[1..]);
      left := [s[0]] + more;
      hide Edge;
      EdgeGrows(s[0], more);
      Assoc([s[0]], more, TrimLeft(s[1..]));
      SplitPrefix(s, [s[0]]);
    } else {
      left := "";
      assert "" + s == s;
    }
  }

  lemma TrimLeftStep(s: string)
    ensures TrimLeft(s) == if s != [] && Trimmable(s[0]) then TrimLeft(s[1..]) else s
  {
  }

  lemma EdgeGrows(c: char, s: string)
    requires Trimmable(c) && Edge(s)
    ensures Edge([c] + s)
  {
  }

  lemma LocationIs(location: string)
    ensures TrimmedLocation(location, LocationComponent(location))
  {
    hide SafeComponent, Edge, TrimLeft, TrimRight;
    var bare := if location != "" && location[0] == '.' then location[1..] else location;
    assert TrimPrefix(location, ".") == bare;
    var left, right := TrimmedParts(SafeComponent(bare));
  }

  lemma StartStays(s: string)
    ensures TrimRight(s) != "" ==> s != "" && TrimRight(s)[0] == s[0]
  {
    hide TrimRight;
  }

  // ----- numerals -----

  function NumberOf(digits: string): nat {
    if digits == "" then 0
    else NumberOf(Init(digits)) * 10 + (if '0' <= Last(digits) <= '9' then (Last(digits) - '0') as nat else 0)
  }

  /** Decimal digits without leading zeros. */
  lemma {:induction false} DecimalReads(n: nat)
    ensures NumberOf(Decimal(n)) == n
    ensures forall i :: 0 <= i < |Decimal(n)| ==> '0' <= Decimal(n)[i] <= '9'
    ensures n > 0 ==> Decimal(n)[0] != '0'
  {
    var d := ('0' as int + n % 10) as char;
    if n < 10 {
      assert Decimal(n) == [d] && Init([d]) == "";
    } else {
      DecimalReads(n / 10);
      assert Decimal(n) == Decimal(n / 10) + [d];
      assert Init(Decimal(n)) == Decimal(n / 10);
    }
  }

  // ----- the name of a group -----

  /** Another group is called the same once sanitised. */
  ghost predicate Shared(groups: seq<Named>, i: nat)
    requires i < |groups|
  {
    exists j :: 0 <= j < |groups| && j != i && Base(groups[j]) == Base(groups[i])
  }

  lemma LocatedIff(groups: seq<Named>, i: nat)
    requires i < |groups|
    ensures Located(groups, i) <==> groups[i].name == "" || Shared(groups, i)
  {
    hide Base;
    var bases := Bases(groups);
    if Shared(groups, i) {
      var j :| 0 <= j < |groups| && j != i && Base(groups[j]) == Base(groups[i]);
      SharedBase(groups, if i < j then i else j, if i < j then j else i);
    }
    if multiset(bases)[bases[i]] > 1 {
      var j := Twin(bases, i);
      assert Base(groups[j]) == Base(groups[i]);
    }
  }

  lemma {:induction false} Twin(xs: seq<string>, i: nat) returns (j: nat)
    requires i < |xs| && multiset(xs)[xs[i]] > 1
    ensures j < |xs| && j != i && xs[j] == xs[i]
  {
    var init, last := Init(xs), Last(xs);
    assert xs == init + [last];
    assert multiset(xs) == multiset(init) + multiset{last};
    if i == |xs| - 1 {
      assert xs[i] in init;
      j :| 0 <= j < |init| && init[j] == xs[i];
    } else if last == xs[i] {
      j := |xs| - 1;
    } else {
      j := Twin(init, i);
    }
  }

  ghost predicate StemFor(groups: seq<Named>, i: nat, base: string, stem: string)
    requires i < |groups|
  {
    && (if groups[i].name == "" then base == "group" else Sanitised(groups[i].name, base))
    && (if groups[i].name == "" || Shared(groups, i)
        then exists at :: TrimmedLocation(groups[i].location, at) && stem == base + ("-at-" + at)
        else stem == base)
  }

  /** The stem, or else the stem with the first numeral from 2 that makes it free. */
  ghost predicate Numbered(stem: string, earlier: seq<string>, name: string, k: nat) {
    && k >= 1 && name == (if k == 1 then stem else stem + ("-" + Decimal(k)))
    && name !in earlier && (k > 1 ==> stem in earlier)
    && forall j :: 2 <= j < k ==> stem + ("-" + Decimal(j)) in earlier
  }

  /** The sanitised name, `group` for an unnamed one; with `-at-` and the location when unnamed or shared; and, when
      that is taken, with the first numeral from 2 that makes it free. */
  lemma NamesExactly(groups: seq<Named>, names: seq<string>, i: nat)
    requires Allocation(groups, names) && i < |groups|
    ensures exists base, stem, k: nat :: StemFor(groups, i, base, stem) && Numbered(stem, names[..i], names[i], k)
  {
    hide Sanitised, TrimmedLocation, SafeComponent, LocationComponent, Decimal, Shared, Located;
    var base, stem := Base(groups[i]), Component(groups, i);
    var k: nat :| FirstFree(stem, names[..i], names[i], k);
    LocatedIff(groups, i);
    LocationIs(groups[i].location);
    SanitisedIff(groups[i].name, SafeComponent(groups[i].name));
    Assoc(base, "-at-", LocationComponent(groups[i].location));
    assert Candidate(stem, 1) == stem;
    forall j: nat | 2 <= j ensures Candidate(stem, j) == stem + ("-" + Decimal(j)) { Assoc(stem, "-", Decimal(j)); }
    assert k > 1 ==> Candidate(stem, 1) in names[..i];
    assert StemFor(groups, i, base, stem);
    assert Numbered(stem, names[..i], names[i], k);
  }
}
