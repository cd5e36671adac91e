/** The first phase of generation: deciding, from a snapshot of the file system, what to write. */
module Generation {
  import opened Text
  import opened Lists
  import opened GroupNames
  import opened GenerationWriting

  datatype Format = NoFormat | PythonRequirements | MavenPom | OtherFormat(name: string)

  datatype Extraction = ExtractionComplete | ExtractionPartial | ExtractionFailed | ExtractionUnsupported

  datatype Dependency = Dependency(raw: string, name: string, versionConstraint: string)

  datatype Group = Group(name: string, location: string, dependencies: seq<Dependency>, state: GroupState,
                         format: Format, diagnostics: seq<string>)

  datatype Source = Source(path: string, generate: Format, extraction: Extraction, groups: seq<Group>)

  /** A dependency element of a POM. */
  datatype Coordinate = Coordinate(groupId: string, artifactId: string, version: string)

  /** Format, flag, and the XML library's rendering of a POM's dependencies. */
  datatype Request = Request(format: Format, overwrite: bool, renderPom: seq<Coordinate> -> string)

  datatype Error =
    | UnsupportedFormat
    | ExtractionIncomplete(source: string)
    | NoGroups(source: string)
    | GroupDiagnostic(source: string, location: string)
    | DestinationCollision(source: string, location: string)
    | DestinationExists(path: string)
    | NotADirectory(path: string)
    | UnmanagedEntry(directory: string)
    | NotARegularFile(path: string)
    | IncompleteCoordinate(source: string, location: string)

  // ----- judging one group -----

  function GeneratedDirectory(format: Format, source: string, component: string): string {
    if format == MavenPom then source + "-" + component + ".generated-maven" else ""
  }

  function GeneratedPath(format: Format, source: string, component: string): string {
    if format == MavenPom then source + "-" + component + ".generated-maven" + "/pom.xml"
    else source + "-" + component + ".generated-requirements.txt"
  }

  predicate CompleteCoordinate(d: Dependency) {
    d.versionConstraint != "" && exists k :: 0 < k < |d.name| - 1 && d.name[k] == ':' && ':' !in d.name[..k]
  }

  function ColonIn(name: string): (k: nat)
    ensures k <= |name|
  {
    if name == "" || name[0] == ':' then 0 else 1 + ColonIn(name[1..])
  }

  /** The name cut at its first colon, and the version. */
  function CoordinateOf(d: Dependency): seq<Coordinate> {
    var k := ColonIn(d.name);
    if k == |d.name| then [] else [Coordinate(d.name[..k], d.name[k + 1..], d.versionConstraint)]
  }

  function RawLine(d: Dependency): seq<char> { d.raw + "\n" }

  predicate OnlyPom(entries: Entries, directory: string) {
    forall path :: path in entries && HasPrefix(path, directory + "/") ==> path == directory + "/pom.xml"
  }

  function DirectoryProblem(entries: Entries, directory: string, overwrite: bool): Option<Error> {
    if directory == "" || directory !in entries then None
    else if !overwrite then Some(DestinationExists(directory))
    else if !entries[directory].Directory? then Some(NotADirectory(directory))
    else if !OnlyPom(entries, directory) then Some(UnmanagedEntry(directory))
    else None
  }

  datatype Step = Blocked(error: Error) | Reported(outcome: GroupOutcome) | Planned(plan: Plan)

  function Outcome(source: Source, group: Group, path: string): GroupOutcome {
    GroupOutcome(source.path, group.name, group.location, group.state, path)
  }

  function ContentOf(r: Request, group: Group): string {
    if r.format == MavenPom then r.renderPom(FlatMap(CoordinateOf, group.dependencies)) else FlatMap(RawLine, group.dependencies)
  }

  /** What one eligible group leads to: an error, a reported skip, or a planned file. */
  function Judge(r: Request, entries: Entries, source: Source, group: Group, component: string): Step {
    var directory := GeneratedDirectory(r.format, source.path, component);
    var path := GeneratedPath(r.format, source.path, component);
    var problem := DirectoryProblem(entries, directory, r.overwrite);
    if group.diagnostics != [] then Blocked(GroupDiagnostic(source.path, group.location))
    else if group.state != Ready then Reported(Outcome(source, group, ""))
    else if problem.Some? then Blocked(problem.value)
    else if path in entries && !r.overwrite then Blocked(DestinationExists(path))
    else if path in entries && !entries[path].File? then Blocked(NotARegularFile(path))
    else if r.format == MavenPom && exists d :: d in group.dependencies && !CompleteCoordinate(d) then
      Blocked(IncompleteCoordinate(source.path, group.location))
    else Planned(Plan(path, directory, ContentOf(r, group), Outcome(source, group, path)))
  }

  // ----- the groups of one source -----

  function OfFormat(format: Format): Group -> bool { (g: Group) => g.format == format }

  const GroupLocation := (g: Group) => g.location

  predicate HasFormat(format: Format, source: Source) { exists g :: g in source.groups && g.format == format }

  function EligibleGroups(format: Format, source: Source): seq<Group> {
    SortBy(GroupLocation, if HasFormat(format, source) then Filter(OfFormat(format), source.groups) else source.groups)
  }

  function NamedGroups(groups: seq<Group>): (r: seq<Named>)
    ensures |r| == |groups| && forall i :: 0 <= i < |groups| ==> r[i] == Named(groups[i].name, groups[i].location)
  {
    seq(|groups|, i requires 0 <= i < |groups| => Named(groups[i].name, groups[i].location))
  }

  ghost function NamesOf(groups: seq<Named>): (names: seq<string>)
    ensures Allocation(groups, names)
  {
    AllocationExists(groups);
    var names :| Allocation(groups, names);
    names
  }

  ghost function GroupSteps(r: Request, entries: Entries, source: Source, groups: seq<Group>,
                            names: seq<string>): (steps: seq<Step>)
    requires |names| >= |groups|
    ensures |steps| == |groups|
    ensures forall i :: 0 <= i < |groups| ==> steps[i] == Judge(r, entries, source, groups[i], names[i])
  {
    seq(|groups|, i requires 0 <= i < |groups| => Judge(r, entries, source, groups[i], names[i]))
  }

  ghost function SourceSteps(r: Request, entries: Entries): Source -> seq<Step> {
    (source: Source) =>
      if source.generate != r.format && !HasFormat(r.format, source) then []
      else if !HasFormat(r.format, source) && source.extraction != ExtractionComplete then
        [Blocked(ExtractionIncomplete(source.path))]
      else if source.groups == [] then [Blocked(NoGroups(source.path))]
      else
        var groups := EligibleGroups(r.format, source);
        GroupSteps(r, entries, source, groups, NamesOf(NamedGroups(groups)))
  }

  function PlanIn(step: Step): seq<Plan> { if step.Planned? then [step.plan] else [] }

  function ReportIn(step: Step): seq<GroupOutcome> { if step.Reported? then [step.outcome] else [] }

  ghost predicate AllClear(steps: seq<Step>) { forall s :: s in steps ==> !s.Blocked? }

  /** Errors stop the planning at the first blocked step. */
  ghost predicate FirstError(steps: seq<Step>, error: Error) {
    exists k :: 0 <= k < |steps| && steps[k] == Blocked(error) && AllClear(steps[..k])
  }

  datatype Planning = PlanningFailed(error: Error) | PlanningDone(plans: seq<Plan>, reported: seq<GroupOutcome>)

  /** The planning result that a list of steps stands for. */
  ghost predicate Decides(steps: seq<Step>, result: Planning) {
    match result
    case PlanningFailed(error) => FirstError(steps, error)
    case PlanningDone(plans, reported) =>
      AllClear(steps) && plans == FlatMap(PlanIn, steps) && reported == FlatMap(ReportIn, steps)
  }

  lemma {:induction false} AllocationExists(groups: seq<Named>)
    ensures exists names :: Allocation(groups, names)
  {
    hide Component, Assigned;
    var names: seq<string> := [];
    while |names| < |groups|
      invariant |names| <= |groups|
      invariant forall i :: 0 <= i < |names| ==> Assigned(Component(groups, i), names[..i], names[i])
    {
      var n := |names|;
      var name := FreeExists(Component(groups, n), names);
      var longer := names + [name];
      forall i | 0 <= i <= n ensures Assigned(Component(groups, i), longer[..i], longer[i]) {
        assert longer[..i] == names[..i];
        assert names[..n] == names;
      }
      names := longer;
    }
    assert Allocation(groups, names);
  }

  lemma FreeExists(component: string, earlier: seq<string>) returns (name: string)
    ensures Assigned(component, earlier, name)
  {
    var k: nat := 1;
    while Candidate(component, k) in earlier
      invariant k >= 1 && forall j :: 1 <= j < k ==> Candidate(component, j) in earlier
      decreases |earlier| + 2 - k
    {
      SuffixBounded(component, earlier, k + 1);
      k := k + 1;
    }
    name := Candidate(component, k);
    assert FirstFree(component, earlier, name, k);
  }

  // ----- the planner -----

  method JudgeGroup(r: Request, entries: Entries, source: Source, group: Group, component: string,
                    used: map<string, string>)
    returns (step: Step, rel: string)
    requires GeneratedPath(r.format, source.path, component) !in used
    ensures step == Judge(r, entries, source, group, component)
    ensures rel == GeneratedPath(r.format, source.path, component)
  {
    hide GeneratedPath, GeneratedDirectory, CompleteCoordinate, OnlyPom;
    var directory := GeneratedDirectory(r.format, source.path, component);
    rel := GeneratedPath(r.format, source.path, component);
    if |group.diagnostics| > 0 {
      return Blocked(GroupDiagnostic(source.path, group.location)), rel;
    }
    if group.state != Ready {
      return Reported(Outcome(source, group, "")), rel;
    }
    if rel in used {
      return Blocked(DestinationCollision(source.path, group.location)), rel;
    }
    var problem := DirectoryProblem(entries, directory, r.overwrite);
    if problem.Some? {
      return Blocked(problem.value), rel;
    }
    if rel in entries {
      if !r.overwrite {
        return Blocked(DestinationExists(rel)), rel;
      }
      if !entries[rel].File? {
        return Blocked(NotARegularFile(rel)), rel;
      }
    }
    if r.format == MavenPom {
      var complete := AllComplete(group.dependencies);
      if !complete {
        return Blocked(IncompleteCoordinate(source.path, group.location)), rel;
      }
    }
    return Planned(Plan(rel, directory, ContentOf(r, group), Outcome(source, group, rel))), rel;
  }

  method AllComplete(dependencies: seq<Dependency>) returns (complete: bool)
    ensures complete <==> forall d :: d in dependencies ==> CompleteCoordinate(d)
  {
    for n := 0 to |dependencies|
      invariant forall i :: 0 <= i < n ==> CompleteCoordinate(dependencies[i])
    {
      if !CompleteCoordinate(dependencies[n]) {
        assert dependencies[n] in dependencies;
        return false;
      }
    }
    return true;
  }

  lemma PathsInjective(format: Format, source: string, a: string, b: string)
    requires GeneratedPath(format, source, a) == GeneratedPath(format, source, b)
    ensures a == b
  {
    var x, y := GeneratedPath(format, source, a), GeneratedPath(format, source, b);
    assert |a| == |b|;
    assert x[|source| + 1..|source| + 1 + |a|] == a;
    assert y[|source| + 1..|source| + 1 + |b|] == b;
  }

  /** Plans one source; `DestinationCollision` is checked as in the source but never raised. */
  method PlanSource(r: Request, entries: Entries, source: Source) returns (result: Planning)
    ensures Decides(SourceSteps(r, entries)(source), result)
    ensures result.PlanningFailed? ==> !result.error.DestinationCollision?
  {
    hide Judge, Allocation, GeneratedPath, EligibleGroups;
    if source.generate != r.format && !HasFormat(r.format, source) {
      return PlanningDone([], []);
    }
    if !HasFormat(r.format, source) && source.extraction != ExtractionComplete {
      OneBlocked(ExtractionIncomplete(source.path));
      return PlanningFailed(ExtractionIncomplete(source.path));
    }
    if |source.groups| == 0 {
      OneBlocked(NoGroups(source.path));
      return PlanningFailed(NoGroups(source.path));
    }
    var groups := EligibleGroups(r.format, source);
    var components := GenerationGroupComponents(NamedGroups(groups));
    AllocationUnique(NamedGroups(groups), components, NamesOf(NamedGroups(groups)));
    AllocationLength(NamedGroups(groups), components);
    result := PlanGroups(r, entries, source, groups, components);
  }

  lemma OneBlocked(error: Error)
    ensures FirstError([Blocked(error)], error)
  {
    assert [Blocked(error)][0] == Blocked(error);
  }

  method PlanGroups(r: Request, entries: Entries, source: Source, groups: seq<Group>, components: seq<string>)
    returns (result: Planning)
    requires Allocation(NamedGroups(groups), components) && |components| == |groups|
    ensures Decides(GroupSteps(r, entries, source, groups, components), result)
    ensures result.PlanningFailed? ==> !result.error.DestinationCollision?
  {
    hide Judge, Allocation, GeneratedPath, Component;
    ghost var steps := GroupSteps(r, entries, source, groups, components);
    var plans, reported: seq<GroupOutcome> := [], [];
    var used: map<string, string> := map[];
    for n := 0 to |groups|
      invariant AllClear(steps[..n])
      invariant plans == FlatMap(PlanIn, steps[..n]) && reported == FlatMap(ReportIn, steps[..n])
      invariant forall p :: p in used ==> exists i :: 0 <= i < n && p == GeneratedPath(r.format, source.path, components[i])
    {
      if GeneratedPath(r.format, source.path, components[n]) in used {
        var i :| 0 <= i < n && GeneratedPath(r.format, source.path, components[n]) == GeneratedPath(r.format, source.path, components[i]);
        PathsInjective(r.format, source.path, components[n], components[i]);
        NamesDistinct(NamedGroups(groups), components);
        assert false;
      }
      var step, rel := JudgeGroup(r, entries, source, groups[n], components[n], used);
      assert step == steps[n];
      FlatMapStep(PlanIn, steps, n);
      FlatMapStep(ReportIn, steps, n);
      match step {
        case Blocked(error) =>
          NotCollision(r, entries, source, groups[n], components[n]);
          return PlanningFailed(error);
        case Reported(outcome) =>
          reported := reported + [outcome];
        case Planned(plan) =>
          used := used[rel := groups[n].location];
          plans := plans + [plan];
      }
    }
    assert steps[..|groups|] == steps;
    return PlanningDone(plans, reported);
  }

  lemma AllocationLength(groups: seq<Named>, names: seq<string>)
    requires Allocation(groups, names)
    ensures |names| == |groups|
  {
  }

  lemma NotCollision(r: Request, entries: Entries, source: Source, group: Group, component: string)
    ensures Judge(r, entries, source, group, component).Blocked? ==>
              !Judge(r, entries, source, group, component).error.DestinationCollision?
  {
  }

  ghost function AllSteps(r: Request, entries: Entries, sources: seq<Source>): seq<Step> {
    FlatMap(SourceSteps(r, entries), sources)
  }

  method PlanAll(r: Request, entries: Entries, sources: seq<Source>) returns (result: Planning)
    ensures Decides(AllSteps(r, entries, sources), result)
    ensures result.PlanningFailed? ==> !result.error.DestinationCollision?
  {
    hide SourceSteps;
    var plans, reported := [], [];
    for n := 0 to |sources|
      invariant Decides(AllSteps(r, entries, sources[..n]), PlanningDone(plans, reported))
    {
      ghost var before, more := AllSteps(r, entries, sources[..n]), SourceSteps(r, entries)(sources[n]);
      FlatMapStep(SourceSteps(r, entries), sources, n);
      var planning := PlanSource(r, entries, sources[n]);
      match planning {
        case PlanningFailed(error) =>
          ErrorInRest(before, more, FlatMap(SourceSteps(r, entries), sources[n + 1..]), error);
          FlatMapAppend(SourceSteps(r, entries), sources[..n + 1], sources[n + 1..]);
          assert sources[..n + 1] + sources[n + 1..] == sources;
          return planning;
        case PlanningDone(morePlans, moreReported) =>
          FlatMapAppend(PlanIn, before, more);
          FlatMapAppend(ReportIn, before, more);
          plans := plans + morePlans;
          reported := reported + moreReported;
      }
    }
    assert sources[..|sources|] == sources;
    return PlanningDone(plans, reported);
  }

  lemma ErrorInRest(before: seq<Step>, more: seq<Step>, after: seq<Step>, error: Error)
    requires AllClear(before) && FirstError(more, error)
    ensures FirstError(before + more + after, error)
  {
    var k :| 0 <= k < |more| && more[k] == Blocked(error) && AllClear(more[..k]);
    var all := before + more + after;
    assert all[|before| + k] == Blocked(error);
    assert all[..|before| + k] == before + more[..k];
  }

  // ----- both phases -----

  datatype GenerationResult =
    | Refused(error: Error)
    | Interrupted(written: nat)
    | Generated(paths: seq<string>, outcomes: seq<GroupOutcome>)

  const PlanPath := (p: Plan) => p.relative

  /** The sorted plans that a successful planning hands to the writing phase. */
  ghost function PlansOf(r: Request, entries: Entries, sources: seq<Source>): seq<Plan> {
    SortBy(PlanPath, FlatMap(PlanIn, AllSteps(r, entries, sources)))
  }

  /** The one outcome every unblocked step stands for. */
  function OutcomeIn(step: Step): seq<GroupOutcome> {
    match step
    case Blocked(_) => []
    case Reported(outcome) => [outcome]
    case Planned(plan) => [plan.outcome]
  }

  function PlanOutcome(plan: Plan): seq<GroupOutcome> { [plan.outcome] }

  lemma {:induction false} StepsHaveOneOutcome(steps: seq<Step>)
    requires AllClear(steps)
    ensures |FlatMap(OutcomeIn, steps)| == |steps|
    ensures multiset(FlatMap(ReportIn, steps)) + multiset(FlatMap(PlanOutcome, FlatMap(PlanIn, steps)))
         == multiset(FlatMap(OutcomeIn, steps))
  {
    if steps != [] {
      var init, last := Init(steps), Last(steps);
      assert last in steps;
      StepsHaveOneOutcome(init);
      FlatMapLast(OutcomeIn, steps);
      FlatMapLast(ReportIn, steps);
      FlatMapLast(PlanIn, steps);
      FlatMapAppend(PlanOutcome, FlatMap(PlanIn, init), PlanIn(last));
      OneOutcome(last);
      hide FlatMap, OutcomeIn, ReportIn, PlanIn;
      assert multiset(OutcomeIn(last)) == multiset(ReportIn(last)) + multiset(FlatMap(PlanOutcome, PlanIn(last)));
    }
  }

  lemma OneOutcome(step: Step)
    requires !step.Blocked?
    ensures |OutcomeIn(step)| == 1 && OutcomeIn(step) == ReportIn(step) + FlatMap(PlanOutcome, PlanIn(step))
  {
    FlatMapNil(PlanOutcome);
    if step.Planned? {
      FlatMapCons(PlanOutcome, step.plan, []);
      assert [step.plan] + [] == [step.plan];
    }
  }

  lemma {:induction false} OutcomesListed(plans: seq<Plan>, outcomes: seq<GroupOutcome>)
    requires |outcomes| == |plans| && forall i :: 0 <= i < |plans| ==> outcomes[i] == plans[i].outcome
    ensures outcomes == FlatMap(PlanOutcome, plans)
  {
    if plans != [] {
      OutcomesListed(Init(plans), Init(outcomes));
    }
  }

  lemma OutcomesAccountedFor(steps: seq<Step>, planned: seq<Plan>, reported: seq<GroupOutcome>, sorted: seq<Plan>,
                             outcomes: seq<GroupOutcome>)
    requires Decides(steps, PlanningDone(planned, reported)) && sorted == SortBy(PlanPath, planned)
    requires |outcomes| == |sorted| && forall i :: 0 <= i < |sorted| ==> outcomes[i] == sorted[i].outcome
    ensures multiset(reported + outcomes) == multiset(FlatMap(OutcomeIn, steps))
  {
    StepsHaveOneOutcome(steps);
    SortByContributes(PlanPath, PlanOutcome, planned);
    OutcomesListed(sorted, outcomes);
  }

  // ----- the two phases together -----

  /** Destinations of one source never coincide: its collision error is unreachable. */
  lemma OneSourceDistinct(r: Request, entries: Entries, source: Source, i: nat, j: nat)
    requires i < j < |SourceSteps(r, entries)(source)|
    requires SourceSteps(r, entries)(source)[i].Planned? && SourceSteps(r, entries)(source)[j].Planned?
    ensures SourceSteps(r, entries)(source)[i].plan.relative != SourceSteps(r, entries)(source)[j].plan.relative
  {
    hide EligibleGroups, Allocation, GeneratedPath;
    var groups := EligibleGroups(r.format, source);
    var names := NamesOf(NamedGroups(groups));
    AllocationLength(NamedGroups(groups), names);
    NamesDistinct(NamedGroups(groups), names);
    if GeneratedPath(r.format, source.path, names[i]) == GeneratedPath(r.format, source.path, names[j]) {
      PathsInjective(r.format, source.path, names[i], names[j]);
    }
  }

  /** A plan that got through without the overwrite flag names only paths that do not exist yet. */
  lemma PlannedPathsVacant(r: Request, entries: Entries, sources: seq<Source>, plan: Plan)
    requires !r.overwrite && plan in FlatMap(PlanIn, AllSteps(r, entries, sources))
    ensures plan.relative !in entries && (plan.directory in entries ==> plan.directory == "")
  {
    hide SourceSteps, Judge;
    FlatMapMember(PlanIn, AllSteps(r, entries, sources), plan);
    var step :| step in AllSteps(r, entries, sources) && plan in PlanIn(step);
    FlatMapMember(SourceSteps(r, entries), sources, step);
    var source :| source in sources && step in SourceSteps(r, entries)(source);
    PlannedStepVacant(r, entries, source, step);
  }

  lemma StepIsJudged(r: Request, entries: Entries, source: Source, step: Step) returns (group: Group, component: string)
    requires step.Planned? && step in SourceSteps(r, entries)(source)
    ensures step == Judge(r, entries, source, group, component) && Safe(component) && !Reserved(component)
  {
    hide EligibleGroups, Allocation, Judge, Safe;
    var k :| 0 <= k < |SourceSteps(r, entries)(source)| && SourceSteps(r, entries)(source)[k] == step;
    var groups := EligibleGroups(r.format, source);
    var names := NamesOf(NamedGroups(groups));
    AllocationLength(NamedGroups(groups), names);
    assert step == GroupSteps(r, entries, source, groups, names)[k];
    group, component := groups[k], names[k];
    NamesAreSafe(NamedGroups(groups), names, k);
  }

  lemma PlannedStepVacant(r: Request, entries: Entries, source: Source, step: Step)
    requires !r.overwrite && step.Planned? && step in SourceSteps(r, entries)(source)
    ensures step.plan.relative !in entries && (step.plan.directory in entries ==> step.plan.directory == "")
  {
    hide SourceSteps, GeneratedPath, GeneratedDirectory, ContentOf;
    var group, component := StepIsJudged(r, entries, source, step);
  }

  lemma PathEndings(format: Format, source: string, component: string)
    ensures var path := GeneratedPath(format, source, component); path != "" && Last(path) in {'t', 'l'}
    ensures var directory := GeneratedDirectory(format, source, component); directory != "" ==> Last(directory) == 'n'
  {
    assert Last("/pom.xml") == 'l' && Last(".generated-requirements.txt") == 't' && Last(".generated-maven") == 'n';
  }

  lemma PlannedPathsEnd(r: Request, entries: Entries, sources: seq<Source>, plan: Plan)
    requires plan in FlatMap(PlanIn, AllSteps(r, entries, sources))
    ensures plan.relative != "" && Last(plan.relative) in {'t', 'l'}
    ensures plan.directory != "" ==> Last(plan.directory) == 'n'
  {
    hide SourceSteps, Judge;
    FlatMapMember(PlanIn, AllSteps(r, entries, sources), plan);
    var step :| step in AllSteps(r, entries, sources) && plan in PlanIn(step);
    FlatMapMember(SourceSteps(r, entries), sources, step);
    var source :| source in sources && step in SourceSteps(r, entries)(source);
    PlannedStepEnds(r, entries, source, step);
  }

  lemma PlannedStepEnds(r: Request, entries: Entries, source: Source, step: Step)
    requires step.Planned? && step in SourceSteps(r, entries)(source)
    ensures step.plan.relative != "" && Last(step.plan.relative) in {'t', 'l'}
    ensures step.plan.directory != "" ==> Last(step.plan.directory) == 'n'
  {
    hide SourceSteps, GeneratedPath, GeneratedDirectory, ContentOf;
    var group, component := StepIsJudged(r, entries, source, step);
    PathEndings(r.format, source.path, component);
  }

  lemma PlansAreApart(r: Request, entries: Entries, sources: seq<Source>)
    ensures DirectoriesApart(PlansOf(r, entries, sources))
  {
    hide AllSteps, SortBy, FlatMap;
    SortByMembers(PlanPath, FlatMap(PlanIn, AllSteps(r, entries, sources)));
    forall plan | plan in PlansOf(r, entries, sources)
      ensures plan.relative != "" && Last(plan.relative) in {'t', 'l'} && (plan.directory != "" ==> Last(plan.directory) == 'n')
    {
      PlannedPathsEnd(r, entries, sources, plan);
    }
  }

  /** Exclusive generation whose planning succeeded completes, absent file-system faults, exactly when no
      two groups of different sources are given the same destination. */
  lemma GenerationCompletesIff(r: Request, entries: Entries, sources: seq<Source>)
    requires !r.overwrite
    ensures var plans := PlansOf(r, entries, sources);
            Run(entries, plans, false, NO_FAULTS, 0).1 == |plans| <==>
            forall i, j :: 0 <= i < j < |plans| ==> plans[i].relative != plans[j].relative
  {
    hide AllSteps, SortBy, FlatMap;
    var plans := PlansOf(r, entries, sources);
    SortByMembers(PlanPath, FlatMap(PlanIn, AllSteps(r, entries, sources)));
    forall plan | plan in plans
      ensures plan.relative !in entries && (plan.directory in entries ==> plan.directory == "")
    {
      PlannedPathsVacant(r, entries, sources, plan);
    }
    PlansAreApart(r, entries, sources);
    ExclusiveRunCompletesIff(entries, plans);
  }

  /** What generation leaves at a destination, with either flag, under any faults, over collisions too: the
      content of the last finished plan for it, and otherwise what was there. */
  lemma GenerationLeaves(r: Request, entries: Entries, sources: seq<Source>, faults: Faults, i: nat)
    requires i < |PlansOf(r, entries, sources)|
    ensures var plans := PlansOf(r, entries, sources);
            var (after, done) := Run(entries, plans, r.overwrite, faults, 0);
            Leaves(entries, after, plans, r.overwrite, faults, 0, done, plans[i].relative)
  {
    hide AllSteps, SortBy, FlatMap;
    PlansAreApart(r, entries, sources);
    var plans := PlansOf(r, entries, sources);
    PrefixIsWritten(entries, plans, r.overwrite, faults, 0, plans[i].relative);
  }

  lemma PlannedPathsReplaceable(r: Request, entries: Entries, sources: seq<Source>)
    ensures Replaceable(entries, PlansOf(r, entries, sources))
  {
    hide SourceSteps, Judge, SortBy;
    SortByMembers(PlanPath, FlatMap(PlanIn, AllSteps(r, entries, sources)));
    forall plan | plan in PlansOf(r, entries, sources)
      ensures plan.relative in entries ==> entries[plan.relative].File?
      ensures plan.directory in entries && plan.directory != "" ==> entries[plan.directory].Directory?
    {
      FlatMapMember(PlanIn, AllSteps(r, entries, sources), plan);
      var step :| step in AllSteps(r, entries, sources) && plan in PlanIn(step);
      FlatMapMember(SourceSteps(r, entries), sources, step);
      var source :| source in sources && step in SourceSteps(r, entries)(source);
      PlannedStepReplaceable(r, entries, source, step);
    }
  }

  lemma PlannedStepReplaceable(r: Request, entries: Entries, source: Source, step: Step)
    requires step.Planned? && step in SourceSteps(r, entries)(source)
    ensures step.plan.relative in entries ==> entries[step.plan.relative].File?
    ensures step.plan.directory in entries && step.plan.directory != "" ==> entries[step.plan.directory].Directory?
  {
    hide SourceSteps, GeneratedPath, GeneratedDirectory, ContentOf;
    var group, component := StepIsJudged(r, entries, source, step);
  }

  /** Overwriting generation whose planning succeeded always completes, absent faults, and then every planned
      content is on the disk exactly when plans for one destination have one content: otherwise a content is
      lost although its outcome is reported. */
  lemma OverwritingKeepsAllIff(r: Request, entries: Entries, sources: seq<Source>)
    requires r.overwrite
    ensures var plans := PlansOf(r, entries, sources);
            var (after, done) := Run(entries, plans, true, NO_FAULTS, 0);
            && done == |plans|
            && (AllOnDisk(plans, after) <==>
                  forall i, j :: 0 <= i < j < |plans| && plans[i].relative == plans[j].relative ==>
                    plans[i].content == plans[j].content)
  {
    hide AllSteps, SortBy, FlatMap, Run;
    var plans := PlansOf(r, entries, sources);
    PlansAreApart(r, entries, sources);
    PlannedPathsReplaceable(r, entries, sources);
    OverwritingRunCompletes(entries, plans, 0);
    CompletedRunKeepsAllIff(entries, plans, true, NO_FAULTS);
  }

  // ----- two sources, one destination -----

  /** A source with one group ready for the requested format. */
  function OneGroup(format: Format, path: string, name: string, location: string, dependencies: seq<Dependency>): Source {
    Source(path, format, ExtractionComplete, [Group(name, location, dependencies, Ready, format, [])])
  }

  lemma OneGroupPlanned(r: Request, path: string, name: string, location: string, dependencies: seq<Dependency>)
    requires Safe(name) && !Reserved(name)
    requires r.format == MavenPom ==> forall d :: d in dependencies ==> CompleteCoordinate(d)
    ensures var source := OneGroup(r.format, path, name, location, dependencies);
            var group := source.groups[0];
            var destination := GeneratedPath(r.format, path, name);
            SourceSteps(r, map[])(source) ==
            [Planned(Plan(destination, GeneratedDirectory(r.format, path, name), ContentOf(r, group), Outcome(source, group, destination)))]
  {
    hide GeneratedPath, GeneratedDirectory, ContentOf, CompleteCoordinate, Allocation, Safe;
    var source := OneGroup(r.format, path, name, location, dependencies);
    var groups := source.groups;
    assert HasFormat(r.format, source) by { assert groups[0] in groups; }
    FilterNil(OfFormat(r.format));
    FilterLast(OfFormat(r.format), groups);
    SortByOfOne(GroupLocation, groups[0]);
    assert Init(groups) == [] && groups == [groups[0]];
    assert OfFormat(r.format)(Last(groups));
    hide SortBy, Filter;
    assert Filter(OfFormat(r.format), groups) == groups;
    assert EligibleGroups(r.format, source) == groups;
    var names := NamesOf(NamedGroups(groups));
    OneNameKept(NamedGroups(groups), names);
    assert SourceSteps(r, map[])(source) == [Judge(r, map[], source, groups[0], name)];
  }

  lemma OneNameKept(groups: seq<Named>, names: seq<string>)
    requires |groups| == 1 && Allocation(groups, names) && Safe(groups[0].name) && !Reserved(groups[0].name)
    ensures names == [groups[0].name]
  {
    AllocationLength(groups, names);
    NameUnchangedIff(groups, names, 0);
    assert Bases(groups) == [Bases(groups)[0]];
  }

  /** Across sources destinations can coincide: a dash moved from the group's name to the source's path.
      Planning succeeds, an exclusive run stops before its second plan, and an overwriting run completes
      with only the second content on the disk. */
  lemma SourcesCanCollide(r: Request, a: string, b: string, c: string, at: string,
                          first: seq<Dependency>, second: seq<Dependency>)
    requires Safe(b) && Safe(c) && !Reserved(c)
    requires r.format == MavenPom ==> forall d :: d in first + second ==> CompleteCoordinate(d)
    ensures var sources := [OneGroup(r.format, a, b + "-" + c, at, first), OneGroup(r.format, a + "-" + b, c, at, second)];
            var plans := PlansOf(r, map[], sources);
            && AllClear(AllSteps(r, map[], sources)) && |plans| == 2 && plans[0].relative == plans[1].relative
            && multiset{plans[0].content, plans[1].content}
                 == multiset{ContentOf(r, sources[0].groups[0]), ContentOf(r, sources[1].groups[0])}
            && (!r.overwrite ==> Run(map[], plans, false, NO_FAULTS, 0).1 < 2)
            && (r.overwrite ==>
                  var (after, done) := Run(map[], plans, true, NO_FAULTS, 0);
                  done == 2 && plans[1].relative in after && after[plans[1].relative] == File(plans[1].content))
  {
    hide AllSteps, PlansOf, Run, ContentOf, Safe;
    CollidingPlans(r, a, b, c, at, first, second);
    var sources := [OneGroup(r.format, a, b + "-" + c, at, first), OneGroup(r.format, a + "-" + b, c, at, second)];
    var plans := PlansOf(r, map[], sources);
    if r.overwrite {
      OverwritingKeepsAllIff(r, map[], sources);
      GenerationLeaves(r, map[], sources, NO_FAULTS, 1);
      assert LastWriter(plans, plans[1].relative, 0, 2, 1);
    } else {
      GenerationCompletesIff(r, map[], sources);
    }
  }

  lemma CollidingPlans(r: Request, a: string, b: string, c: string, at: string, first: seq<Dependency>, second: seq<Dependency>)
    requires Safe(b) && Safe(c) && !Reserved(c)
    requires r.format == MavenPom ==> forall d :: d in first + second ==> CompleteCoordinate(d)
    ensures var sources := [OneGroup(r.format, a, b + "-" + c, at, first), OneGroup(r.format, a + "-" + b, c, at, second)];
            var plans := PlansOf(r, map[], sources);
            && AllClear(AllSteps(r, map[], sources)) && |plans| == 2 && plans[0].relative == plans[1].relative
            && multiset{plans[0].content, plans[1].content}
                 == multiset{ContentOf(r, sources[0].groups[0]), ContentOf(r, sources[1].groups[0])}
  {
    hide GeneratedPath, GeneratedDirectory, ContentOf, SourceSteps, AllSteps, PlansOf, Safe, CompleteCoordinate;
    var one, two := OneGroup(r.format, a, b + "-" + c, at, first), OneGroup(r.format, a + "-" + b, c, at, second);
    DashedIsSafe(b, c);
    OneGroupPlanned(r, a, b + "-" + c, at, first);
    OneGroupPlanned(r, a + "-" + b, c, at, second);
    SamePath(r.format, a, b, c);
    TwoSteps(r, one, two);
    TwoPlans(r, one, two);
  }

  lemma DashedIsSafe(b: string, c: string)
    requires Safe(b) && Safe(c)
    ensures Safe(b + "-" + c) && !Reserved(b + "-" + c)
  {
    SafeAppend(b, "-");
    SafeAppend(b + "-", c);
    assert (b + "-" + c)[|b|] == '-';
  }

  lemma SamePath(format: Format, a: string, b: string, c: string)
    ensures GeneratedPath(format, a, b + "-" + c) == GeneratedPath(format, a + "-" + b, c)
  {
    assert a + "-" + (b + "-" + c) == (a + "-" + b) + "-" + c;
  }

  lemma TwoSteps(r: Request, one: Source, two: Source)
    requires |SourceSteps(r, map[])(one)| == 1 && |SourceSteps(r, map[])(two)| == 1
    ensures AllSteps(r, map[], [one, two]) == [SourceSteps(r, map[])(one)[0], SourceSteps(r, map[])(two)[0]]
  {
    hide SourceSteps;
    var f := SourceSteps(r, map[]);
    assert [one, two] == [one] + [two];
    FlatMapAppend(f, [one], [two]);
    FlatMapCons(f, one, []);
    FlatMapCons(f, two, []);
    FlatMapNil(f);
    assert [one] + [] == [one] && [two] + [] == [two];
  }

  lemma TwoPlans(r: Request, one: Source, two: Source)
    requires |AllSteps(r, map[], [one, two])| == 2
    requires var steps := AllSteps(r, map[], [one, two]);
             steps[0].Planned? && steps[1].Planned? && steps[0].plan.relative == steps[1].plan.relative
    ensures var steps, plans := AllSteps(r, map[], [one, two]), PlansOf(r, map[], [one, two]);
            && |plans| == 2 && plans[0].relative == plans[1].relative
            && multiset{plans[0].content, plans[1].content} == multiset{steps[0].plan.content, steps[1].plan.content}
  {
    hide AllSteps;
    var steps := AllSteps(r, map[], [one, two]);
    var p, q := steps[0].plan, steps[1].plan;
    assert steps == [steps[0]] + [steps[1]];
    FlatMapAppend(PlanIn, [steps[0]], [steps[1]]);
    FlatMapCons(PlanIn, steps[0], []);
    FlatMapCons(PlanIn, steps[1], []);
    FlatMapNil(PlanIn);
    assert [steps[0]] + [] == [steps[0]] && [steps[1]] + [] == [steps[1]];
    assert FlatMap(PlanIn, steps) == [p, q];
    SortByOfTwo(PlanPath, p, q);
  }
}
