/** Which paths a whole generation can touch, and when destinations of different sources can coincide. */
module GenerationCollisions {
  import opened Text
  import opened Lists
  import opened GroupNames
  import opened GenerationWriting
  import opened Generation

  ghost predicate Allowed(component: string) { Safe(component) && !Reserved(component) }

  // ----- what a generation touches -----

  /** A destination, or a directory still to be made, named after a source by a safe component. */
  ghost predicate Touchable(r: Request, entries: Entries, sources: seq<Source>, path: string) {
    exists source, component :: source in sources && Allowed(component)
      && (path == GeneratedPath(r.format, source.path, component)
          || (path !in entries && path == GeneratedDirectory(r.format, source.path, component)))
  }

  lemma PlanIsNamed(r: Request, entries: Entries, sources: seq<Source>, plan: Plan) returns (source: Source, component: string)
    requires plan in PlansOf(r, entries, sources)
    ensures source in sources && Allowed(component) && plan.outcome.source == source.path
    ensures plan.relative == GeneratedPath(r.format, source.path, component)
    ensures plan.directory == GeneratedDirectory(r.format, source.path, component)
  {
    hide SourceSteps, SortBy, GeneratedPath, GeneratedDirectory;
    SortByMembers(PlanPath, FlatMap(PlanIn, AllSteps(r, entries, sources)));
    FlatMapMember(PlanIn, AllSteps(r, entries, sources), plan);
    var step :| step in AllSteps(r, entries, sources) && plan in PlanIn(step);
    FlatMapMember(SourceSteps(r, entries), sources, step);
    source :| source in sources && step in SourceSteps(r, entries)(source);
    var group;
    group, component := StepIsJudged(r, entries, source, step);
  }

  /** With either flag and under any faults a generation changes nothing but paths named after its sources. */
  lemma OnlyNamedPathsChange(r: Request, entries: Entries, sources: seq<Source>, faults: Faults, path: string)
    ensures Untouched(entries, Run(entries, PlansOf(r, entries, sources), r.overwrite, faults, 0).0, path)
            || Touchable(r, entries, sources, path)
  {
    hide PlansOf, Run, GeneratedPath, GeneratedDirectory, Untouched;
    var plans := PlansOf(r, entries, sources);
    var (after, done) := Run(entries, plans, r.overwrite, faults, 0);
    OnlyPlannedChange(entries, plans, r.overwrite, faults, 0, path);
    if Reached(entries, plans, 0, done, path) {
      var i :| 0 <= i < |plans| && i <= done && (path == plans[i].relative || (path == plans[i].directory && path !in entries));
      var source, component := PlanIsNamed(r, entries, sources, plans[i]);
    }
  }

  // ----- when two paths coincide -----

  /** The second source's path is the first one's, continued with a dash and `middle`. */
  predicate ContinuedBy(first: string, second: string, middle: string) { second == first + ("-" + middle) }

  function Ending(format: Format): string {
    if format == MavenPom then ".generated-maven/pom.xml" else ".generated-requirements.txt"
  }

  lemma PathParts(format: Format, source: string, component: string)
    ensures GeneratedPath(format, source, component) == (source + ("-" + component)) + Ending(format)
  {
    Assoc(source, "-", component);
    Assoc(source + "-" + component, ".generated-maven", "/pom.xml");
    assert ".generated-maven" + "/pom.xml" == ".generated-maven/pom.xml";
  }

  lemma SameEnding(a: string, b: string, ending: string)
    requires a + ending == b + ending
    ensures a == b
  {
    assert |a| == |b|;
    assert (a + ending)[..|a|] == a && (b + ending)[..|b|] == b;
  }

  /** Coinciding destinations of two sources: the longer path continues the shorter one, and the shorter one's
      group name starts with what is added. */
  lemma CoincidenceParts(format: Format, a: string, x: string, b: string, y: string) returns (middle: string)
    requires GeneratedPath(format, a, x) == GeneratedPath(format, b, y) && |a| < |b|
    ensures ContinuedBy(a, b, middle) && x == middle + ("-" + y)
  {
    hide GeneratedPath;
    PathParts(format, a, x);
    PathParts(format, b, y);
    SameEnding(a + ("-" + x), b + ("-" + y), Ending(format));
    var s := a + ("-" + x);
    middle := b[|a| + 1..];
    assert s[..|b|] == b && s[..|a|] == a && s[|a|] == '-' && b[|a|] == '-' && b[..|a|] == a;
    assert b == a + ("-" + middle);
    assert x == s[|a| + 1..] && s[|a| + 1..] == middle + ("-" + y);
  }

  lemma SameLength(format: Format, a: string, x: string, b: string, y: string)
    requires GeneratedPath(format, a, x) == GeneratedPath(format, b, y) && |a| == |b|
    ensures a == b && x == y
  {
    hide GeneratedPath;
    PathParts(format, a, x);
    PathParts(format, b, y);
    Assoc(a, "-" + x, Ending(format));
    Assoc(b, "-" + y, Ending(format));
    assert GeneratedPath(format, a, x)[..|a|] == a && GeneratedPath(format, b, y)[..|b|] == b;
    PathsInjective(format, a, x, y);
  }

  lemma PathsCoincideIff(format: Format, a: string, x: string, b: string, y: string)
    ensures GeneratedPath(format, a, x) == GeneratedPath(format, b, y) <==>
            || (a == b && x == y)
            || (exists middle :: ContinuedBy(a, b, middle) && x == middle + ("-" + y))
            || (exists middle :: ContinuedBy(b, a, middle) && y == middle + ("-" + x))
  {
    hide GeneratedPath, ContinuedBy;
    if GeneratedPath(format, a, x) == GeneratedPath(format, b, y) {
      if |a| < |b| {
        var middle := CoincidenceParts(format, a, x, b, y);
      } else if |b| < |a| {
        var middle := CoincidenceParts(format, b, y, a, x);
      } else {
        SameLength(format, a, x, b, y);
      }
    }
    if middle :| ContinuedBy(a, b, middle) && x == middle + ("-" + y) { Continues(format, a, b, middle, y); }
    if middle :| ContinuedBy(b, a, middle) && y == middle + ("-" + x) { Continues(format, b, a, middle, x); }
  }

  lemma Continues(format: Format, a: string, b: string, middle: string, y: string)
    requires ContinuedBy(a, b, middle)
    ensures GeneratedPath(format, a, middle + ("-" + y)) == GeneratedPath(format, b, y)
  {
    hide GeneratedPath;
    PathParts(format, a, middle + ("-" + y));
    PathParts(format, b, y);
    assert a + ("-" + (middle + ("-" + y))) == (a + ("-" + middle)) + ("-" + y);
  }

  /** One path continues the other with a dash and safe characters. */
  ghost predicate Nested(a: string, b: string) {
    exists middle :: Safe(middle) && (ContinuedBy(a, b, middle) || ContinuedBy(b, a, middle))
  }

  /** Two different source paths can be given one destination at all if and only if one continues the other. */
  lemma CanCoincideIff(format: Format, a: string, b: string)
    requires a != b
    ensures (exists x, y :: Allowed(x) && Allowed(y) && GeneratedPath(format, a, x) == GeneratedPath(format, b, y)) <==> Nested(a, b)
  {
    hide GeneratedPath;
    if x, y :| Allowed(x) && Allowed(y) && GeneratedPath(format, a, x) == GeneratedPath(format, b, y) {
      PathsCoincideIff(format, a, x, b, y);
      if middle :| ContinuedBy(a, b, middle) && x == middle + ("-" + y) {
        assert Safe(middle) by { SafePart(middle, "-" + y); }
      }
      if middle :| ContinuedBy(b, a, middle) && y == middle + ("-" + x) {
        assert Safe(middle) by { SafePart(middle, "-" + x); }
      }
    }
    if Nested(a, b) {
      var middle :| Safe(middle) && (ContinuedBy(a, b, middle) || ContinuedBy(b, a, middle));
      AllowedNames(middle);
      if ContinuedBy(a, b, middle) {
        Continues(format, a, b, middle, "x");
      } else {
        Continues(format, b, a, middle, "x");
      }
    }
  }

  lemma SafePart(middle: string, rest: string)
    requires Safe(middle + rest)
    ensures Safe(middle)
  {
    forall i | 0 <= i < |middle| ensures SafeChar(middle[i]) {
      assert (middle + rest)[i] == middle[i];
    }
  }

  lemma AllowedNames(middle: string)
    requires Safe(middle)
    ensures Allowed("x") && Allowed(middle + ("-" + "x"))
  {
    var name := middle + ("-" + "x");
    assert "-" + "x" == "-x" && name[|middle|] == '-';
  }

  // ----- scans whose sources cannot collide -----

  predicate NoRepeat(xs: seq<string>) { forall i, j :: 0 <= i < j < |xs| ==> xs[i] != xs[j] }

  lemma {:induction false} NoRepeatIff(xs: seq<string>)
    ensures NoRepeat(xs) <==> forall x :: multiset(xs)[x] <= 1
  {
    if xs != [] {
      NoRepeatIff(xs[1..]);
      assert xs == [xs[0]] + xs[1..];
      assert multiset(xs) == multiset{xs[0]} + multiset(xs[1..]);
      if NoRepeat(xs) {
        assert xs[0] !in xs[1..];
        forall x ensures multiset(xs)[x] <= 1 {
          assert multiset(xs[1..])[x] <= 1;
        }
      }
      if forall x :: multiset(xs)[x] <= 1 {
        assert forall x :: multiset(xs[1..])[x] <= multiset(xs)[x];
        assert multiset(xs)[xs[0]] <= 1;
        assert xs[0] !in multiset(xs[1..]);
      }
    }
  }

  lemma NoRepeatAppend(a: seq<string>, b: seq<string>)
    requires NoRepeat(a) && NoRepeat(b) && forall x :: x in a ==> x !in b
    ensures NoRepeat(a + b)
  {
    var all := a + b;
    forall i, j | 0 <= i < j < |all| ensures all[i] != all[j] {
      if i < |a| <= j {
        assert a[i] in a && b[j - |a|] in b && all[i] == a[i] && all[j] == b[j - |a|];
      } else if j < |a| {
        assert all[i] == a[i] && all[j] == a[j];
      } else {
        assert all[i] == b[i - |a|] && all[j] == b[j - |a|];
      }
    }
  }

  function RelativeOf(plan: Plan): seq<string> { [plan.relative] }

  lemma {:induction false} RelativesListed(plans: seq<Plan>)
    ensures var xs := FlatMap(RelativeOf, plans); |xs| == |plans| && forall i :: 0 <= i < |plans| ==> xs[i] == plans[i].relative
  {
    if plans != [] {
      RelativesListed(Init(plans));
    }
  }

  /** The destinations planned for one source. */
  ghost function PathsFor(r: Request, entries: Entries): Source -> seq<string> {
    source => FlatMap(RelativeOf, FlatMap(PlanIn, SourceSteps(r, entries)(source)))
  }

  lemma {:induction false} StepsNoRepeat(steps: seq<Step>)
    requires forall i, j :: 0 <= i < j < |steps| && steps[i].Planned? && steps[j].Planned? ==>
               steps[i].plan.relative != steps[j].plan.relative
    ensures NoRepeat(FlatMap(RelativeOf, FlatMap(PlanIn, steps)))
    ensures forall x :: x in FlatMap(RelativeOf, FlatMap(PlanIn, steps)) ==>
              exists i :: 0 <= i < |steps| && steps[i].Planned? && steps[i].plan.relative == x
  {
    if steps != [] {
      var init, last := Init(steps), Last(steps);
      StepsNoRepeat(init);
      FlatMapLast(PlanIn, steps);
      FlatMapAppend(RelativeOf, FlatMap(PlanIn, init), PlanIn(last));
      assert FlatMap(RelativeOf, PlanIn(last)) == if last.Planned? then [last.plan.relative] else [] by {
        FlatMapNil(RelativeOf);
        if last.Planned? {
          FlatMapCons(RelativeOf, last.plan, []);
          assert [last.plan] + [] == [last.plan] && [last.plan.relative] + [] == [last.plan.relative];
        }
      }
      hide FlatMap;
      NoRepeatAppend(FlatMap(RelativeOf, FlatMap(PlanIn, init)), FlatMap(RelativeOf, PlanIn(last)));
    }
  }

  lemma OneSourceNoRepeat(r: Request, entries: Entries, source: Source)
    ensures NoRepeat(PathsFor(r, entries)(source))
    ensures forall x :: x in PathsFor(r, entries)(source) ==>
              exists component :: Allowed(component) && x == GeneratedPath(r.format, source.path, component)
  {
    hide SourceSteps, GeneratedPath, Judge;
    var steps := SourceSteps(r, entries)(source);
    forall i, j | 0 <= i < j < |steps| && steps[i].Planned? && steps[j].Planned?
      ensures steps[i].plan.relative != steps[j].plan.relative
    {
      OneSourceDistinct(r, entries, source, i, j);
    }
    StepsNoRepeat(steps);
    hide FlatMap;
    forall x | x in PathsFor(r, entries)(source)
      ensures exists component :: Allowed(component) && x == GeneratedPath(r.format, source.path, component)
    {
      var i :| 0 <= i < |steps| && steps[i].Planned? && steps[i].plan.relative == x;
      var component := ComponentOf(r, entries, source, steps[i]);
    }
  }

  lemma ComponentOf(r: Request, entries: Entries, source: Source, step: Step) returns (component: string)
    requires step.Planned? && step in SourceSteps(r, entries)(source)
    ensures Allowed(component) && step.plan.relative == GeneratedPath(r.format, source.path, component)
  {
    hide SourceSteps, GeneratedPath;
    var group;
    group, component := StepIsJudged(r, entries, source, step);
  }

  /** No path is listed twice, and none continues another one with a dash and safe characters. */
  ghost predicate SourcesApart(sources: seq<Source>) {
    forall i, j :: 0 <= i < j < |sources| ==> sources[i].path != sources[j].path && !Nested(sources[i].path, sources[j].path)
  }

  lemma {:induction false} AllPathsNoRepeat(r: Request, entries: Entries, sources: seq<Source>)
    requires SourcesApart(sources)
    ensures NoRepeat(FlatMap(PathsFor(r, entries), sources))
  {
    if sources != [] {
      hide GeneratedPath, Nested, NoRepeat, PathsFor;
      var f := PathsFor(r, entries);
      var init, last := Init(sources), Last(sources);
      AllPathsNoRepeat(r, entries, init);
      FlatMapLast(f, sources);
      OneSourceNoRepeat(r, entries, last);
      forall x | x in FlatMap(f, init) ensures x !in f(last) {
        FlatMapMember(f, init, x);
        var source :| source in init && x in f(source);
        OneSourceNoRepeat(r, entries, source);
        CanCoincideIff(r.format, source.path, last.path);
      }
      hide FlatMap;
      NoRepeatAppend(FlatMap(f, init), f(last));
    }
  }

  /** In such a scan all destinations differ, over all sources and groups. */
  lemma ApartSourcesDiffer(r: Request, entries: Entries, sources: seq<Source>)
    requires SourcesApart(sources)
    ensures var plans := PlansOf(r, entries, sources);
            forall i, j :: 0 <= i < j < |plans| ==> plans[i].relative != plans[j].relative
  {
    hide SortBy, SourceSteps, SourcesApart;
    var f, g := SourceSteps(r, entries), Compose(PlanIn, RelativeOf);
    var planned := FlatMap(PlanIn, AllSteps(r, entries, sources));
    AllPathsNoRepeat(r, entries, sources);
    FlatMapCompose(PlanIn, RelativeOf, AllSteps(r, entries, sources));
    FlatMapCompose(f, g, sources);
    forall source | source in sources ensures Compose(f, g)(source) == PathsFor(r, entries)(source) {
      FlatMapCompose(PlanIn, RelativeOf, f(source));
    }
    FlatMapCongruence(Compose(f, g), PathsFor(r, entries), sources);
    SortByContributes(PlanPath, RelativeOf, planned);
    RelativesListed(PlansOf(r, entries, sources));
    hide FlatMap, NoRepeat, PathsFor;
    NoRepeatIff(FlatMap(RelativeOf, planned));
    NoRepeatIff(FlatMap(RelativeOf, PlansOf(r, entries, sources)));
    ListedDiffer(PlansOf(r, entries, sources));
  }

  lemma ListedDiffer(plans: seq<Plan>)
    requires NoRepeat(FlatMap(RelativeOf, plans))
    ensures forall i, j :: 0 <= i < j < |plans| ==> plans[i].relative != plans[j].relative
  {
    RelativesListed(plans);
    hide FlatMap;
  }

  /** It completes, absent faults, with either flag, and every planned content is then on the disk. */
  lemma ApartSourcesComplete(r: Request, entries: Entries, sources: seq<Source>)
    requires SourcesApart(sources)
    ensures var plans := PlansOf(r, entries, sources);
            var (after, done) := Run(entries, plans, r.overwrite, NO_FAULTS, 0);
            done == |plans| && AllOnDisk(plans, after)
  {
    hide SourcesApart, PlansOf, Run;
    var plans := PlansOf(r, entries, sources);
    ApartSourcesDiffer(r, entries, sources);
    if r.overwrite {
      OverwritingKeepsAllIff(r, entries, sources);
    } else {
      GenerationCompletesIff(r, entries, sources);
      PlansAreApart(r, entries, sources);
      CompletedRunKeepsAllIff(entries, plans, false, NO_FAULTS);
    }
  }
}
