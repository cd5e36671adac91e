/** File-name components for the groups of one source: sanitise, disambiguate, suffix until unused.

  Here a string is a sequence of runes.
 */
module GroupNames {
  import opened Text
  import opened Lists

  datatype Named = Named(name: string, location: string)

  // ----- sanitising -----

  predicate SafeChar(c: char) {
    'a' <= c <= 'z' || 'A' <= c <= 'Z' || '0' <= c <= '9' || c == '-' || c == '_' || c == '.'
  }

  ghost predicate Safe(s: string) { forall i :: 0 <= i < |s| ==> SafeChar(s[i]) }

  /** Each run of unsafe characters becomes one '-'; `inRun` says a run is already open. */
  function Replaced(value: string, inRun: bool): (r: string)
    ensures Safe(r) && |r| <= |value|
  {
    if value == [] then []
    else if SafeChar(value[0]) then [value[0]] + Replaced(value[1..], false)
    else if inRun then Replaced(value[1..], true)
    else ['-'] + Replaced(value[1..], true)
  }

  predicate Reserved(component: string) { component == "" || component == "." || component == ".." }

  function SafeComponent(value: string): string {
    var component := Replaced(value, false);
    if Reserved(component) then "group" else component
  }

  lemma ReplacedStep(value: string, n: nat, inRun: bool)
    requires n < |value|
    ensures Replaced(value[n..], inRun) ==
            (if SafeChar(value[n]) then [value[n]] else if inRun then "" else "-") + Replaced(value[n + 1..], !SafeChar(value[n]))
  {
    assert value[n..][1..] == value[n + 1..];
    var none, rest := "", Replaced(value[n + 1..], true);
    assert none + rest == rest;
  }

  method SafeFilenameComponent(value: string) returns (component: string)
    ensures component == SafeComponent(value)
  {
    hide Safe, Replaced;
    component := "";
    var separator := false;
    assert value[0..] == value && "" + Replaced(value, false) == Replaced(value, false);
    for n := 0 to |value|
      invariant Replaced(value, false) == component + Replaced(value[n..], separator)
    {
      var r := value[n];
      ReplacedStep(value, n, separator);
      Assoc(component, if SafeChar(r) then [r] else if separator then "" else "-", Replaced(value[n + 1..], !SafeChar(r)));
      assert component + "" == component;
      if SafeChar(r) {
        component := component + [r];
        separator := false;
      } else if !separator {
        component := component + "-";
        separator := true;
      }
    }
    NothingReplaced();
    assert value[|value|..] == "" && component + "" == component;
    if component == "" || component == "." || component == ".." {
      return "group";
    }
  }

  lemma NothingReplaced()
    ensures forall inRun :: Replaced("", inRun) == ""
  {
  }

  lemma SafeComponentIsSafe(value: string)
    ensures Safe(SafeComponent(value)) && !Reserved(SafeComponent(value))
  {
  }

  lemma {:induction false} ReplacedKeepsSafe(value: string, inRun: bool)
    requires Safe(value)
    ensures Replaced(value, inRun) == value
  {
    if value != [] {
      assert SafeChar(value[0]);
      assert Safe(value[1..]);
      ReplacedKeepsSafe(value[1..], false);
    }
  }

  /** A name survives sanitising unchanged exactly when it is safe and not reserved. */
  lemma SafeNamesUnchanged(value: string)
    ensures SafeComponent(value) == value <==> Safe(value) && !Reserved(value)
  {
    SafeComponentIsSafe(value);
    if Safe(value) { ReplacedKeepsSafe(value, false); }
  }

  predicate Trimmable(c: char) { c == '-' || c == '.' }

  function TrimLeft(s: string): (r: string)
    ensures |r| <= |s| && r == s[|s| - |r|..]
  {
    if s != [] && Trimmable(s[0]) then TrimLeft(s[1..]) else s
  }

  function TrimRight(s: string): (r: string)
    ensures |r| <= |s| && r == s[..|r|]
  {
    if s != [] && Trimmable(Last(s)) then TrimRight(Init(s)) else s
  }

  function LocationComponent(location: string): (r: string)
    ensures Safe(r)
  {
    SafeComponentIsSafe(TrimPrefix(location, "."));
    var component := TrimRight(TrimLeft(SafeComponent(TrimPrefix(location, "."))));
    if component == "group" then "root" else component
  }

  // ----- decimal numerals -----

  function Decimal(n: nat): (r: string)
    ensures r != "" && Safe(r)
  {
    if n < 10 then ['0' + n as char] else Decimal(n / 10) + ['0' + (n % 10) as char]
  }

  lemma {:induction false} DecimalInjective(a: nat, b: nat)
    requires Decimal(a) == Decimal(b)
    ensures a == b
    decreases a
  {
    var x, y := Decimal(a), Decimal(b);
    assert Last(x) == '0' + (a % 10) as char && Last(y) == '0' + (b % 10) as char;
    assert ('0' + (a % 10) as char) as int == '0' as int + a % 10 && ('0' + (b % 10) as char) as int == '0' as int + b % 10;
    assert a >= 10 ==> |x| > 1;
    assert b >= 10 ==> |y| > 1;
    if a >= 10 && b >= 10 {
      assert Init(x) == Decimal(a / 10) && Init(y) == Decimal(b / 10);
      DecimalInjective(a / 10, b / 10);
    }
  }

  // ----- the allocator -----

  function Base(group: Named): string {
    if group.name == "" then "group" else SafeComponent(group.name)
  }

  function Bases(groups: seq<Named>): (r: seq<string>)
    ensures |r| == |groups| && forall i :: 0 <= i < |groups| ==> r[i] == Base(groups[i])
  {
    seq(|groups|, i requires 0 <= i < |groups| => Base(groups[i]))
  }

  /** The location goes into the component of unnamed groups and of those that share their base. */
  predicate Located(groups: seq<Named>, i: nat)
    requires i < |groups|
  {
    groups[i].name == "" || multiset(Bases(groups))[Base(groups[i])] > 1
  }

  function Component(groups: seq<Named>, i: nat): string
    requires i < |groups|
  {
    if Located(groups, i) then
      Base(groups[i]) + "-at-" + LocationComponent(groups[i].location)
    else Base(groups[i])
  }

  /** The k-th name tried for a component, from 1. */
  function Candidate(component: string, k: nat): string {
    if k <= 1 then component else component + "-" + Decimal(k)
  }

  lemma CandidateInjective(component: string, j: nat, k: nat)
    requires 1 <= j && 1 <= k && Candidate(component, j) == Candidate(component, k)
    ensures j == k
  {
    if j > 1 && k > 1 {
      assert Decimal(j) == Candidate(component, j)[|component| + 1..];
      assert Decimal(k) == Candidate(component, k)[|component| + 1..];
      DecimalInjective(j, k);
    }
  }

  ghost function Tried(component: string, k: nat): set<string> {
    set j | 1 <= j <= k :: Candidate(component, j)
  }

  lemma {:induction false} TriedAreDistinct(component: string, k: nat)
    ensures |Tried(component, k)| == k
  {
    if k == 0 {
      assert Tried(component, 0) == {};
    } else {
      TriedAreDistinct(component, k - 1);
      assert Tried(component, k) == Tried(component, k - 1) + {Candidate(component, k)};
      if Candidate(component, k) in Tried(component, k - 1) {
        var j :| 1 <= j <= k - 1 && Candidate(component, j) == Candidate(component, k);
        CandidateInjective(component, j, k);
      }
    }
  }

  /** `name` is the first candidate not used earlier. */
  ghost predicate FirstFree(component: string, earlier: seq<string>, name: string, k: nat) {
    && 1 <= k && name == Candidate(component, k) && name !in earlier
    && forall j :: 1 <= j < k ==> Candidate(component, j) in earlier
  }

  ghost predicate Assigned(component: string, earlier: seq<string>, name: string) {
    exists k: nat :: FirstFree(component, earlier, name, k)
  }

  lemma FirstFreeUnique(component: string, earlier: seq<string>, a: string, b: string)
    requires Assigned(component, earlier, a) && Assigned(component, earlier, b)
    ensures a == b
  {
    hide Candidate;
    var j: nat :| FirstFree(component, earlier, a, j);
    var k: nat :| FirstFree(component, earlier, b, k);
    assert j < k ==> Candidate(component, j) in earlier;
    assert k < j ==> Candidate(component, k) in earlier;
  }

  lemma {:induction false} ElementsAtMost(names: seq<string>)
    ensures |(set x | x in names)| <= |names|
  {
    if names != [] {
      ElementsAtMost(Init(names));
      assert (set x | x in names) == (set x | x in Init(names)) + {Last(names)};
    }
  }

  /** Pigeonhole: after n earlier names the suffix is at most n + 1. */
  lemma SuffixBounded(component: string, earlier: seq<string>, k: nat)
    requires forall j :: 1 <= j < k ==> Candidate(component, j) in earlier
    ensures k <= |earlier| + 1
  {
    if k > 0 {
      TriedAreDistinct(component, k - 1);
      ElementsAtMost(earlier);
      var used := set x | x in earlier;
      assert Tried(component, k - 1) <= used;
      SubsetSize(Tried(component, k - 1), used);
    }
  }

  lemma {:induction false} SubsetSize(a: set<string>, b: set<string>)
    requires a <= b
    ensures |a| <= |b|
  {
    if a != {} {
      var x :| x in a;
      SubsetSize(a - {x}, b - {x});
    }
  }

  /** The whole allocation: each group takes the first free candidate of its component. */
  ghost predicate Allocation(groups: seq<Named>, names: seq<string>) {
    && |names| == |groups|
    && forall i :: 0 <= i < |groups| ==> Assigned(Component(groups, i), names[..i], names[i])
  }

  method CountBases(groups: seq<Named>) returns (base: seq<string>, counts: map<string, nat>)
    ensures base == Bases(groups)
    ensures forall b :: b in base ==> b in counts && counts[b] == multiset(base)[b]
  {
    hide Base;
    base, counts := [], map[];
    for n := 0 to |groups|
      invariant |base| == n && forall i :: 0 <= i < n ==> base[i] == Base(groups[i])
      invariant forall b :: b in base ==> b in counts
      invariant forall b :: b in counts ==> counts[b] == multiset(base)[b]
    {
      var b := BaseOf(groups[n]);
      assert multiset(base + [b]) == multiset(base) + multiset{b};
      counts := counts[b := (if b in counts then counts[b] else 0) + 1];
      base := base + [b];
    }
  }

  method BaseOf(group: Named) returns (base: string)
    ensures base == Base(group)
  {
    base := "group";
    if group.name != "" {
      base := SafeFilenameComponent(group.name);
    }
  }

  method FindFree(component: string, used: set<string>, ghost earlier: seq<string>) returns (candidate: string)
    requires used == set x | x in earlier
    ensures Assigned(component, earlier, candidate)
  {
    candidate := component;
    var suffix := 2;
    while candidate in used
      invariant suffix >= 2 && candidate == Candidate(component, suffix - 1)
      invariant forall j :: 1 <= j < suffix - 1 ==> Candidate(component, j) in earlier
      decreases |earlier| + 2 - suffix
    {
      SuffixBounded(component, earlier, suffix);
      candidate := component + "-" + Decimal(suffix);
      suffix := suffix + 1;
    }
    assert FirstFree(component, earlier, candidate, suffix - 1);
  }

  method GenerationGroupComponents(groups: seq<Named>) returns (components: seq<string>)
    ensures Allocation(groups, components)
  {
    hide Assigned, LocationComponent, SafeComponent;
    var base, counts := CountBases(groups);
    components := [];
    var used: set<string> := {};
    for n := 0 to |groups|
      invariant |components| == n && used == set x | x in components
      invariant forall i :: 0 <= i < n ==> Assigned(Component(groups, i), components[..i], components[i])
    {
      var component := base[n];
      assert base[n] in base && base[n] == Base(groups[n]);
      if groups[n].name == "" || counts[component] > 1 {
        component := component + ("-at-" + LocationComponent(groups[n].location));
        assert component == base[n] + "-at-" + LocationComponent(groups[n].location);
      }
      assert component == Component(groups, n);
      var candidate := FindFree(component, used, components);
      ghost var before := components;
      used := used + {candidate};
      components := components + [candidate];
      assert components[..n] == before;
      forall i | 0 <= i <= n ensures Assigned(Component(groups, i), components[..i], components[i]) {
        assert components[..i] == before[..i];
      }
    }
  }

  // ----- what an allocation guarantees -----

  /** Names within one source are pairwise distinct, so its destinations never collide. */
  lemma NamesDistinct(groups: seq<Named>, names: seq<string>)
    requires Allocation(groups, names)
    ensures forall i, j :: 0 <= i < j < |names| ==> names[i] != names[j]
  {
    forall i, j | 0 <= i < j < |names| ensures names[i] != names[j] {
      var k: nat :| FirstFree(Component(groups, j), names[..j], names[j], k);
      assert names[..j][i] == names[i];
    }
  }

  /** The i-th group needs a numeric suffix of at most i + 1. */
  lemma SuffixesBounded(groups: seq<Named>, names: seq<string>, i: nat, k: nat)
    requires Allocation(groups, names) && i < |groups|
    requires FirstFree(Component(groups, i), names[..i], names[i], k)
    ensures k <= i + 1
  {
    SuffixBounded(Component(groups, i), names[..i], k);
  }

  lemma SafeAppend(a: string, b: string)
    requires Safe(a) && Safe(b)
    ensures Safe(a + b)
  {
  }

  lemma ComponentIsSafe(groups: seq<Named>, i: nat)
    requires i < |groups|
    ensures Safe(Component(groups, i)) && !Reserved(Component(groups, i))
  {
    hide LocationComponent, SafeComponent;
    var base, where := Base(groups[i]), LocationComponent(groups[i].location);
    SafeComponentIsSafe(groups[i].name);
    assert Safe("-at-") && Safe("group");
    SafeAppend(base, "-at-");
    SafeAppend(base + "-at-", where);
    assert |base + "-at-" + where| >= 4;
  }

  lemma CandidateIsSafe(component: string, k: nat)
    requires Safe(component) && !Reserved(component)
    ensures Safe(Candidate(component, k)) && !Reserved(Candidate(component, k))
  {
    if k > 1 {
      assert Safe("-");
      SafeAppend(component, "-");
      SafeAppend(component + "-", Decimal(k));
      assert |Candidate(component, k)| >= |component| + 2;
    }
  }

  /** Every name is non-empty, over the safe alphabet, and never "." or "..". */
  lemma NamesAreSafe(groups: seq<Named>, names: seq<string>, i: nat)
    requires Allocation(groups, names) && i < |groups|
    ensures Safe(names[i]) && !Reserved(names[i])
  {
    hide Component, Safe, Reserved, Candidate;
    ComponentIsSafe(groups, i);
    var k: nat :| FirstFree(Component(groups, i), names[..i], names[i], k);
    CandidateIsSafe(Component(groups, i), k);
  }

  /** The allocation is determined by the groups. */
  lemma AllocationUnique(groups: seq<Named>, a: seq<string>, b: seq<string>)
    requires Allocation(groups, a) && Allocation(groups, b)
    ensures a == b
  {
    hide Component, Assigned;
    var n := 0;
    while n < |groups|
      invariant n <= |groups| && a[..n] == b[..n]
    {
      assert Assigned(Component(groups, n), a[..n], a[n]) && Assigned(Component(groups, n), b[..n], b[n]);
      FirstFreeUnique(Component(groups, n), a[..n], a[n], b[n]);
      assert a[..n + 1] == a[..n] + [a[n]] && b[..n + 1] == b[..n] + [b[n]];
      n := n + 1;
    }
    assert a[..n] == a && b[..n] == b;
  }

  /** Exactly when a group's file component is its own name: the name is safe, no other group's name
      sanitises to it, and no earlier group was given it. */
  lemma NameUnchangedIff(groups: seq<Named>, names: seq<string>, i: nat)
    requires Allocation(groups, names) && i < |groups|
    ensures names[i] == groups[i].name <==>
            Safe(groups[i].name) && !Reserved(groups[i].name)
            && multiset(Bases(groups))[groups[i].name] <= 1 && groups[i].name !in names[..i]
  {
    hide SafeComponent, LocationComponent, Decimal;
    var name, component := groups[i].name, Component(groups, i);
    var k: nat :| FirstFree(component, names[..i], names[i], k);
    NamesAreSafe(groups, names, i);
    SafeNamesUnchanged(name);
    assert |names[i]| >= |component| && (k > 1 ==> |names[i]| > |component|);
    if Safe(name) && !Reserved(name) {
      if multiset(Bases(groups))[name] > 1 {
        assert |component| >= |name| + 4;
      } else if k > 1 {
        assert Candidate(component, 1) in names[..i];
      }
    }
  }

  /** A given name is the group's own base, or starts with the component of a located group that is not later. */
  lemma {:induction false} NamesComeFrom(groups: seq<Named>, names: seq<string>, i: nat)
    requires Allocation(groups, names) && i < |groups|
    ensures (names[i] == Base(groups[i]) && !Located(groups, i))
            || exists j: nat :: j <= i && Located(groups, j) && Component(groups, j) <= names[i]
  {
    hide LocationComponent, SafeComponent, Decimal, Base;
    var component := Component(groups, i);
    var k: nat :| FirstFree(component, names[..i], names[i], k);
    assert component <= names[i];
    if !Located(groups, i) && k > 1 {
      assert Candidate(component, 1) in names[..i];
      var l: nat :| l < i && names[l] == component;
      NamesComeFrom(groups, names, l);
      if names[l] == Base(groups[l]) && !Located(groups, l) {
        SharedBase(groups, l, i);
        assert false;
      }
      var j: nat :| j <= l && Located(groups, j) && Component(groups, j) <= names[l];
      assert Component(groups, j) <= names[i];
    }
  }

  lemma SharedBase(groups: seq<Named>, l: nat, i: nat)
    requires l < i < |groups| && Base(groups[l]) == Base(groups[i])
    ensures multiset(Bases(groups))[Base(groups[i])] > 1 && Located(groups, i)
  {
    hide Base;
    var bases := Bases(groups);
    assert bases == bases[..i] + bases[i..] && bases[..i][l] == bases[i..][0];
    assert multiset(bases) == multiset(bases[..i]) + multiset(bases[i..]);
    assert bases[..i][l] in bases[..i] && bases[i..][0] in bases[i..];
  }

  /** A unique safe name is displaced at most by an earlier group whose located component it continues, and
      always by one whose located component it repeats. */
  lemma UniqueNameKept(groups: seq<Named>, names: seq<string>, i: nat)
    requires Allocation(groups, names) && i < |groups|
    requires var name := groups[i].name; Safe(name) && !Reserved(name) && multiset(Bases(groups))[name] <= 1
    ensures (forall j: nat :: j < i && Located(groups, j) ==> !(Component(groups, j) <= groups[i].name)) ==>
              names[i] == groups[i].name
    ensures (exists j: nat :: j < i && Located(groups, j) && Component(groups, j) == groups[i].name) ==>
              names[i] != groups[i].name
  {
    hide LocationComponent, SafeComponent, Decimal;
    var name := groups[i].name;
    NameUnchangedIff(groups, names, i);
    SafeNamesUnchanged(name);
    if j: nat :| j < i && names[j] == name {
      NamesComeFrom(groups, names, j);
      if names[j] == Base(groups[j]) && !Located(groups, j) {
        assert Base(groups[i]) == name;
        SharedBase(groups, j, i);
      }
    }
    if j: nat :| j < i && Located(groups, j) && Component(groups, j) == name {
      var k: nat :| FirstFree(name, names[..j], names[j], k);
      if k > 1 { assert Candidate(name, 1) in names[..j]; }
      assert name in names[..i];
    }
  }

  predicate Contains(s: string, part: string) { exists k :: 0 <= k <= |s| && part <= s[k..] }

  /** A unique safe name that does not spell out a location is always used unchanged. */
  lemma OrdinaryNameKept(groups: seq<Named>, names: seq<string>, i: nat)
    requires Allocation(groups, names) && i < |groups|
    requires var name := groups[i].name; Safe(name) && !Reserved(name) && multiset(Bases(groups))[name] <= 1
    requires !Contains(groups[i].name, "-at-")
    ensures names[i] == groups[i].name
  {
    hide LocationComponent, SafeComponent, Allocation;
    UniqueNameKept(groups, names, i);
    var name := groups[i].name;
    forall j: nat | j < i && Located(groups, j) ensures !(Component(groups, j) <= name) {
      if Component(groups, j) <= name { LocatedContains(groups, j, name); }
    }
  }

  lemma LocatedContains(groups: seq<Named>, j: nat, name: string)
    requires j < |groups| && Located(groups, j) && Component(groups, j) <= name
    ensures Contains(name, "-at-")
  {
    hide LocationComponent, Base;
    var base := Base(groups[j]);
    assert base + "-at-" <= name;
    assert "-at-" <= name[|base|..];
  }

  /** "Unique safe names are used unchanged" fails: whatever an earlier unnamed group's location, a later
      group can carry, as its unique and safe name, the very spelling the earlier one is given. */
  lemma UniqueSafeNameDisplaced(location: string, other: string) returns (groups: seq<Named>)
    ensures |groups| == 2 && groups[0] == Named("", location)
    ensures Safe(groups[1].name) && !Reserved(groups[1].name) && multiset(Bases(groups))[groups[1].name] == 1
    ensures forall names :: Allocation(groups, names) ==> names[0] == groups[1].name && names[1] != groups[1].name
  {
    hide LocationComponent, Replaced;
    var name := "group" + "-at-" + LocationComponent(location);
    groups := [Named("", location), Named(name, other)];
    ComponentIsSafe(groups, 0);
    assert Component(groups, 0) == name;
    SafeNamesUnchanged(name);
    assert |name| >= 9;
    assert Bases(groups) == ["group", name];
    forall names | Allocation(groups, names) ensures names[0] == name && names[1] != name {
      assert Assigned(Component(groups, 0), names[..0], names[0]);
      var k: nat :| FirstFree(Component(groups, 0), names[..0], names[0], k);
      SuffixesBounded(groups, names, 0, k);
      NamesDistinct(groups, names);
    }
  }
}
