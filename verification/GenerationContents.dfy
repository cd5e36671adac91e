/** What generated files hold, and exactly when planning succeeds, in terms of sources and groups. */
module GenerationContents {
  import opened Text
  import opened Lists
  import opened GroupNames
  import opened GenerationWriting
  import opened Generation

  // ----- contents -----

  /** The lines of a text; a line feed ends a line. */
  function LinesOf(s: string): seq<string> {
    if s == "" then []
    else if s[0] == '\n' then [""] + LinesOf(s[1..])
    else
      var rest := LinesOf(s[1..]);
      if rest == [] then [[s[0]]] else [[s[0]] + rest[0]] + rest[1..]
  }

  lemma {:induction false} LineFirst(line: string, rest: string)
    requires '\n' !in line
    ensures LinesOf(line + ("\n" + rest)) == [line] + LinesOf(rest)
  {
    var s := line + ("\n" + rest);
    if line == "" {
      assert s == "\n" + rest && s[1..] == rest;
    } else {
      LineFirst(line[1..], rest);
      assert line == [line[0]] + line[1..] && line[0] in line;
      assert s[1..] == line[1..] + ("\n" + rest);
      var lines := LinesOf(s[1..]);
      assert lines == [line[1..]] + LinesOf(rest) && lines[1..] == LinesOf(rest);
    }
  }

  /** Every line is a dependency's raw text, in order, and the last one is ended too. */
  lemma {:induction false} RawLinesRead(ds: seq<Dependency>)
    requires forall d :: d in ds ==> '\n' !in d.raw
    ensures var s := FlatMap(RawLine, ds);
            && |LinesOf(s)| == |ds| && (forall i :: 0 <= i < |ds| ==> LinesOf(s)[i] == ds[i].raw)
            && (s != "" ==> Last(s) == '\n')
  {
    hide LinesOf;
    if ds == [] {
      NoLines();
      FlatMapNil(RawLine);
    } else {
      RawLinesRead(ds[1..]);
      assert ds == [ds[0]] + ds[1..];
      FlatMapCons(RawLine, ds[0], ds[1..]);
      hide FlatMap;
      var rest := FlatMap(RawLine, ds[1..]);
      Assoc(ds[0].raw, "\n", rest);
      LineFirst(ds[0].raw, rest);
      assert rest == "" ==> FlatMap(RawLine, ds) == ds[0].raw + "\n" + "";
    }
  }

  lemma NoLines()
    ensures LinesOf("") == []
  {
  }

  /** The text lists the dependencies: as requirement lines, or as rendered coordinates. */
  ghost predicate Spells(r: Request, text: string, ds: seq<Dependency>) {
    && (r.format != MavenPom && (forall d :: d in ds ==> '\n' !in d.raw) ==>
          |LinesOf(text)| == |ds| && (forall i :: 0 <= i < |ds| ==> LinesOf(text)[i] == ds[i].raw) && (text != "" ==> Last(text) == '\n'))
    && (r.format == MavenPom && (forall d :: d in ds ==> Complete(d)) ==>
          exists cs :: text == r.renderPom(cs) && |cs| == |ds| && forall i :: 0 <= i < |ds| ==> Names(cs[i], ds[i]))
  }

  /** The coordinate spells the dependency; the group stops at the first colon. */
  predicate Names(c: Coordinate, d: Dependency) {
    d.name == c.groupId + (":" + c.artifactId) && ':' !in c.groupId && d.versionConstraint == c.version
  }

  /** A group, an artifact and a version. */
  ghost predicate Complete(d: Dependency) {
    exists c :: Names(c, d) && c.groupId != "" && c.artifactId != "" && c.version != ""
  }

  lemma ColonFirst(name: string)
    ensures var k := ColonIn(name);
            ':' !in name[..k] && (k < |name| ==> name[k] == ':' && name == name[..k] + (":" + name[k + 1..]))
  {
    ColonEnds(name);
    var k := ColonIn(name);
    assert k < |name| ==> name[k..] == [name[k]] + name[k + 1..] && name == name[..k] + name[k..];
  }

  lemma {:induction false} ColonEnds(name: string)
    ensures var k := ColonIn(name); ':' !in name[..k] && (k < |name| ==> name[k] == ':')
  {
    if name != "" && name[0] != ':' {
      ColonEnds(name[1..]);
      var k := ColonIn(name[1..]);
      assert name[..k + 1] == [name[0]] + name[1..][..k];
    }
  }

  lemma {:induction false} ColonAt(first: string, rest: string)
    requires ':' !in first
    ensures ColonIn(first + (":" + rest)) == |first|
  {
    var name := first + (":" + rest);
    if first != "" {
      assert name[1..] == first[1..] + (":" + rest) && first == [first[0]] + first[1..] && first[0] in first;
      ColonAt(first[1..], rest);
    }
  }

  lemma NamesCut(c: Coordinate, d: Dependency)
    requires Names(c, d)
    ensures var k := ColonIn(d.name);
            k == |c.groupId| < |d.name| && d.name[..k] == c.groupId && d.name[k + 1..] == c.artifactId && d.name[k] == ':'
  {
    ColonAt(c.groupId, c.artifactId);
    hide ColonIn;
    assert (":" + c.artifactId)[1..] == c.artifactId;
    assert d.name[|c.groupId|..] == ":" + c.artifactId;
  }

  lemma CutNames(d: Dependency, j: nat)
    requires j < |d.name| && d.name[j] == ':' && ':' !in d.name[..j]
    ensures Names(Coordinate(d.name[..j], d.name[j + 1..], d.versionConstraint), d)
  {
    assert d.name == d.name[..j] + (":" + d.name[j + 1..]);
  }

  lemma CompleteFrom(d: Dependency)
    requires CompleteCoordinate(d)
    ensures Complete(d)
  {
    var j :| 0 < j < |d.name| - 1 && d.name[j] == ':' && ':' !in d.name[..j];
    CutNames(d, j);
    hide Names;
    var c := Coordinate(d.name[..j], d.name[j + 1..], d.versionConstraint);
    assert c.groupId != "" && c.artifactId != "" && c.version != "";
  }

  lemma CompleteTo(d: Dependency)
    requires Complete(d)
    ensures CompleteCoordinate(d)
  {
    hide Names, ColonIn;
    var c :| Names(c, d) && c.groupId != "" && c.artifactId != "" && c.version != "";
    NamesCut(c, d);
    VersionNamed(c, d);
    var k := |c.groupId|;
    ColonFirst(d.name);
    assert |d.name[k + 1..]| > 0;
    assert 0 < k < |d.name| - 1 && d.name[k] == ':' && ':' !in d.name[..k];
  }

  lemma CoordinateNamed(d: Dependency)
    requires Complete(d)
    ensures |CoordinateOf(d)| == 1 && Names(CoordinateOf(d)[0], d)
  {
    hide Names, ColonIn;
    var c :| Names(c, d) && c.groupId != "" && c.artifactId != "" && c.version != "";
    NamesCut(c, d);
    ColonFirst(d.name);
    CutNames(d, ColonIn(d.name));
  }

  lemma VersionNamed(c: Coordinate, d: Dependency)
    requires Names(c, d)
    ensures d.versionConstraint == c.version
  {
  }

  lemma {:induction false} CoordinatesNamed(ds: seq<Dependency>)
    requires forall d :: d in ds ==> Complete(d)
    ensures var cs := FlatMap(CoordinateOf, ds); |cs| == |ds| && forall i :: 0 <= i < |ds| ==> Names(cs[i], ds[i])
  {
    if ds != [] {
      hide Complete, CoordinateOf, Names;
      CoordinatesNamed(Init(ds));
      CoordinateNamed(Last(ds));
    }
  }

  lemma ContentLists(r: Request, group: Group)
    ensures Spells(r, ContentOf(r, group), group.dependencies)
  {
    hide LinesOf, Complete, CoordinateOf, RawLine, Names, FlatMap;
    if r.format == MavenPom {
      if forall d :: d in group.dependencies ==> Complete(d) { CoordinatesNamed(group.dependencies); }
    } else if forall d :: d in group.dependencies ==> '\n' !in d.raw {
      RawLinesRead(group.dependencies);
    }
  }

  // ----- the group behind a plan -----

  /** The plan is for a ready group of a source. */
  ghost predicate PlanFor(r: Request, plan: Plan, source: Source, group: Group) {
    && group in source.groups && group.state == Ready
    && plan.outcome == GroupOutcome(source.path, group.name, group.location, Ready, plan.relative)
    && Spells(r, plan.content, group.dependencies)
  }

  lemma EligibleMembers(format: Format, source: Source)
    ensures forall g :: g in EligibleGroups(format, source) <==> g in source.groups && (HasFormat(format, source) ==> g.format == format)
  {
    hide SortBy, FlatMap;
    var chosen := if HasFormat(format, source) then Filter(OfFormat(format), source.groups) else source.groups;
    SortByMembers(GroupLocation, chosen);
    forall g ensures g in Filter(OfFormat(format), source.groups) <==> g in source.groups && g.format == format {
      FlatMapMember(Only(OfFormat(format)), source.groups, g);
      assert forall x :: g in Only(OfFormat(format))(x) <==> x == g && g.format == format;
    }
  }

  lemma StepOfGroup(r: Request, entries: Entries, source: Source, step: Step) returns (group: Group)
    requires step.Planned? && step in SourceSteps(r, entries)(source)
    ensures PlanFor(r, step.plan, source, group)
  {
    hide Allocation, Judge, EligibleGroups, Spells;
    var k :| 0 <= k < |SourceSteps(r, entries)(source)| && SourceSteps(r, entries)(source)[k] == step;
    var groups := EligibleGroups(r.format, source);
    var names := NamesOf(NamedGroups(groups));
    AllocationLength(NamedGroups(groups), names);
    group := groups[k];
    assert step == Judge(r, entries, source, group, names[k]);
    EligibleMembers(r.format, source);
    JudgedFor(r, entries, source, group, names[k]);
  }

  lemma JudgedFor(r: Request, entries: Entries, source: Source, group: Group, name: string)
    requires Judge(r, entries, source, group, name).Planned? && group in source.groups
    ensures PlanFor(r, Judge(r, entries, source, group, name).plan, source, group)
  {
    hide Spells, ContentOf, GeneratedPath, GeneratedDirectory, DirectoryProblem;
    ContentLists(r, group);
  }

  lemma PlanOfGroup(r: Request, entries: Entries, sources: seq<Source>, plan: Plan) returns (source: Source, group: Group)
    requires plan in PlansOf(r, entries, sources)
    ensures source in sources && PlanFor(r, plan, source, group)
  {
    hide SourceSteps, SortBy, Spells;
    SortByMembers(PlanPath, FlatMap(PlanIn, AllSteps(r, entries, sources)));
    FlatMapMember(PlanIn, AllSteps(r, entries, sources), plan);
    var step :| step in AllSteps(r, entries, sources) && plan in PlanIn(step);
    FlatMapMember(SourceSteps(r, entries), sources, step);
    source :| source in sources && step in SourceSteps(r, entries)(source);
    group := StepOfGroup(r, entries, source, step);
  }

  /** The destination holds the dependencies of the group of the last plan for it, counted from plan i on. */
  ghost predicate HoldsGroup(r: Request, sources: seq<Source>, plans: seq<Plan>, after: Entries, i: nat)
    requires i < |plans|
  {
    exists k: nat, source, group, text ::
      && i <= k < |plans| && plans[k].relative == plans[i].relative && source in sources && PlanFor(r, plans[k], source, group)
      && plans[i].relative in after && after[plans[i].relative] == File(text) && Spells(r, text, group.dependencies)
  }

  /** After a completed generation, with either flag, each destination lists exactly the dependencies of a ready group:
      of its own group unless a later plan has the same destination. */
  lemma FilesHoldGroups(r: Request, entries: Entries, sources: seq<Source>, faults: Faults, i: nat)
    requires i < |PlansOf(r, entries, sources)|
    requires Run(entries, PlansOf(r, entries, sources), r.overwrite, faults, 0).1 == |PlansOf(r, entries, sources)|
    ensures HoldsGroup(r, sources, PlansOf(r, entries, sources),
                       Run(entries, PlansOf(r, entries, sources), r.overwrite, faults, 0).0, i)
  {
    hide PlansOf, Run, Spells;
    var plans := PlansOf(r, entries, sources);
    var k := SomeLastWriter(plans, i, |plans|);
    GenerationLeaves(r, entries, sources, faults, i);
    var source, group := PlanOfGroup(r, entries, sources, plans[k]);
  }

  /** Maven files lie in a directory of their own, which exists afterwards. */
  lemma {:induction false} DirectoriesMade(entries: Entries, plans: seq<Plan>, overwrite: bool, faults: Faults, from: nat, i: nat)
    requires from <= i < |plans| && DirectoriesApart(plans) && Run(entries, plans, overwrite, faults, from).1 > i
    ensures var after := Run(entries, plans, overwrite, faults, from).0;
            plans[i].directory != "" ==> plans[i].directory in after && after[plans[i].directory] == Directory
    decreases |plans| - from
  {
    if plans[i].directory != "" {
      var step := WriteStep(entries, plans[from], overwrite, faults(from));
      if from < i {
        DirectoriesMade(step.entries, plans, overwrite, faults, from + 1, i);
      } else {
        DirectoryStays(step.entries, plans, overwrite, faults, from + 1, plans[i].directory);
      }
    }
  }

  lemma {:induction false} DirectoryStays(entries: Entries, plans: seq<Plan>, overwrite: bool, faults: Faults, from: nat, directory: string)
    requires from <= |plans| && directory in entries && entries[directory] == Directory
    requires forall j :: 0 <= j < |plans| ==> plans[j].relative != directory
    ensures var after := Run(entries, plans, overwrite, faults, from).0; directory in after && after[directory] == Directory
    decreases |plans| - from
  {
    if from < |plans| {
      var step := WriteStep(entries, plans[from], overwrite, faults(from));
      if step.ok { DirectoryStays(step.entries, plans, overwrite, faults, from + 1, directory); }
    }
  }

  // ----- exactly when planning succeeds -----

  /** The source is asked for the format, itself or by one of its groups. */
  predicate Asked(r: Request, source: Source) { source.generate == r.format || exists g :: g in source.groups && g.format == r.format }

  /** Nothing that may not be replaced is at the destination of a ready group. */
  ghost predicate Free(r: Request, entries: Entries, source: Source, name: string) {
    if r.format == MavenPom then
      var directory := source.path + ("-" + (name + ".generated-maven"));
      var file := directory + "/pom.xml";
      && (directory in entries ==>
            r.overwrite && entries[directory] == Directory
            && forall path :: path in entries && directory + "/" <= path ==> path == file)
      && (file in entries ==> r.overwrite && entries[file].File?)
    else
      var file := source.path + ("-" + (name + ".generated-requirements.txt"));
      file in entries ==> r.overwrite && entries[file].File?
  }

  /** The group can be generated under the name, or need not be. */
  ghost predicate Generable(r: Request, entries: Entries, source: Source, group: Group, name: string) {
    && group.diagnostics == []
    && (group.state == Ready ==>
          Free(r, entries, source, name) && (r.format == MavenPom ==> forall d :: d in group.dependencies ==> Complete(d)))
  }

  lemma JudgeClearIff(r: Request, entries: Entries, source: Source, group: Group, name: string)
    ensures !Judge(r, entries, source, group, name).Blocked? <==> Generable(r, entries, source, group, name)
  {
    hide Complete, CompleteCoordinate, ContentOf;
    forall d ensures CompleteCoordinate(d) <==> Complete(d) {
      if CompleteCoordinate(d) { CompleteFrom(d); }
      if Complete(d) { CompleteTo(d); }
    }
    Assoc(source.path, "-", name);
    Assoc(source.path + "-", name, ".generated-maven");
    Assoc(source.path + "-", name, ".generated-requirements.txt");
    Assoc(source.path, "-", name + ".generated-maven");
    Assoc(source.path, "-", name + ".generated-requirements.txt");
    assert GeneratedPath(r.format, source.path, name) ==
           if r.format == MavenPom then source.path + ("-" + (name + ".generated-maven")) + "/pom.xml"
           else source.path + ("-" + (name + ".generated-requirements.txt"));
    assert GeneratedDirectory(r.format, source.path, name) ==
           if r.format == MavenPom then source.path + ("-" + (name + ".generated-maven")) else "";
  }

  /** The source is not asked, or its groups can be generated, each under the name it is given. */
  ghost predicate SourceGenerable(r: Request, entries: Entries, source: Source) {
    Asked(r, source) ==>
      && source.groups != []
      && ((exists g :: g in source.groups && g.format == r.format) || source.extraction == ExtractionComplete)
      && var groups := EligibleGroups(r.format, source);
         exists names :: Allocation(NamedGroups(groups), names) && |names| == |groups|
                         && forall i :: 0 <= i < |groups| ==> Generable(r, entries, source, groups[i], names[i])
  }

  lemma StepsClearIff(r: Request, entries: Entries, source: Source, groups: seq<Group>, names: seq<string>)
    requires |names| == |groups|
    ensures AllClear(GroupSteps(r, entries, source, groups, names)) <==>
            forall i :: 0 <= i < |groups| ==> Generable(r, entries, source, groups[i], names[i])
  {
    hide Judge, Generable;
    var steps := GroupSteps(r, entries, source, groups, names);
    forall i | 0 <= i < |groups| ensures !steps[i].Blocked? <==> Generable(r, entries, source, groups[i], names[i]) {
      JudgeClearIff(r, entries, source, groups[i], names[i]);
    }
    if AllClear(steps) {
      assert forall i :: 0 <= i < |groups| ==> steps[i] in steps;
    }
  }

  lemma SourceClearIff(r: Request, entries: Entries, source: Source)
    ensures AllClear(SourceSteps(r, entries)(source)) <==> SourceGenerable(r, entries, source)
  {
    hide Judge, Generable, Allocation, EligibleGroups, GroupSteps;
    var steps := SourceSteps(r, entries)(source);
    if !HasFormat(r.format, source) && source.extraction != ExtractionComplete {
      assert Asked(r, source) ==> steps[0] in steps;
    } else if source.groups == [] {
      assert Asked(r, source) ==> steps[0] in steps;
    } else if Asked(r, source) {
      var groups := EligibleGroups(r.format, source);
      var names := NamesOf(NamedGroups(groups));
      AllocationLength(NamedGroups(groups), names);
      StepsClearIff(r, entries, source, groups, names);
      forall others | Allocation(NamedGroups(groups), others) ensures others == names {
        AllocationUnique(NamedGroups(groups), others, names);
      }
    }
  }

  /** Planning succeeds if and only if every source that is asked can be generated. */
  lemma PlanningSucceedsIff(r: Request, entries: Entries, sources: seq<Source>)
    ensures AllClear(AllSteps(r, entries, sources)) <==> forall source :: source in sources ==> SourceGenerable(r, entries, source)
  {
    hide SourceSteps, SourceGenerable;
    forall source ensures AllClear(SourceSteps(r, entries)(source)) <==> SourceGenerable(r, entries, source) {
      SourceClearIff(r, entries, source);
    }
    forall step ensures step in AllSteps(r, entries, sources) <==> exists source :: source in sources && step in SourceSteps(r, entries)(source) {
      FlatMapMember(SourceSteps(r, entries), sources, step);
    }
    hide AllSteps;
  }

  /** And then every ready group of a source that is asked has its plan. */
  lemma ReadyGroupsPlanned(r: Request, entries: Entries, sources: seq<Source>, source: Source, group: Group)
    requires AllClear(AllSteps(r, entries, sources)) && source in sources && Asked(r, source)
    requires group in source.groups && group.state == Ready
    requires (exists g :: g in source.groups && g.format == r.format) ==> group.format == r.format
    ensures exists plan :: plan in PlansOf(r, entries, sources) && PlanFor(r, plan, source, group)
  {
    hide SourceSteps, AllSteps, PlanFor, Asked, PlansOf;
    SourceStepsClear(r, entries, sources, source);
    var step := ReadyStep(r, entries, source, group);
    StepPlanned(r, entries, sources, source, step);
  }

  lemma SourceStepsClear(r: Request, entries: Entries, sources: seq<Source>, source: Source)
    requires AllClear(AllSteps(r, entries, sources)) && source in sources
    ensures AllClear(SourceSteps(r, entries)(source))
  {
    hide SourceSteps, FlatMap;
    forall step | step in SourceSteps(r, entries)(source) ensures !step.Blocked? {
      FlatMapMember(SourceSteps(r, entries), sources, step);
    }
  }

  lemma StepPlanned(r: Request, entries: Entries, sources: seq<Source>, source: Source, step: Step)
    requires source in sources && step in SourceSteps(r, entries)(source) && step.Planned?
    ensures step.plan in PlansOf(r, entries, sources)
  {
    hide SourceSteps, FlatMap, SortBy;
    FlatMapMember(SourceSteps(r, entries), sources, step);
    FlatMapMember(PlanIn, AllSteps(r, entries, sources), step.plan);
    SortByMembers(PlanPath, FlatMap(PlanIn, AllSteps(r, entries, sources)));
  }

  lemma ReadyStep(r: Request, entries: Entries, source: Source, group: Group) returns (step: Step)
    requires AllClear(SourceSteps(r, entries)(source)) && Asked(r, source)
    requires group in source.groups && group.state == Ready
    requires (exists g :: g in source.groups && g.format == r.format) ==> group.format == r.format
    ensures step in SourceSteps(r, entries)(source) && step.Planned? && PlanFor(r, step.plan, source, group)
  {
    hide Judge, Allocation, EligibleGroups, PlanFor;
    var steps := SourceSteps(r, entries)(source);
    assert steps != [] ==> steps[0] in steps;
    var groups := EligibleGroups(r.format, source);
    var names := NamesOf(NamedGroups(groups));
    AllocationLength(NamedGroups(groups), names);
    EligibleMembers(r.format, source);
    var k :| 0 <= k < |groups| && groups[k] == group;
    assert steps == GroupSteps(r, entries, source, groups, names);
    step := steps[k];
    assert step == Judge(r, entries, source, group, names[k]) && step in steps;
    ReadyIsPlanned(r, entries, source, group, names[k]);
  }

  lemma ReadyIsPlanned(r: Request, entries: Entries, source: Source, group: Group, name: string)
    requires !Judge(r, entries, source, group, name).Blocked? && group in source.groups && group.state == Ready
    ensures Judge(r, entries, source, group, name).Planned?
    ensures PlanFor(r, Judge(r, entries, source, group, name).plan, source, group)
  {
    hide Spells, ContentOf, GeneratedPath, GeneratedDirectory, DirectoryProblem, CompleteCoordinate;
    assert Judge(r, entries, source, group, name).Planned?;
    JudgedFor(r, entries, source, group, name);
  }

  // ----- outcomes -----

  /** The group is one the format is generated for: of that format if the source has any, else any. */
  ghost predicate Eligible(r: Request, sources: seq<Source>, source: Source, group: Group) {
    && source in sources && Asked(r, source) && group in source.groups
    && ((exists g :: g in source.groups && g.format == r.format) ==> group.format == r.format)
  }

  lemma StepsOf(r: Request, entries: Entries, source: Source) returns (groups: seq<Group>, names: seq<string>)
    requires AllClear(SourceSteps(r, entries)(source)) && Asked(r, source)
    ensures groups == EligibleGroups(r.format, source) && |names| == |groups|
    ensures SourceSteps(r, entries)(source) == GroupSteps(r, entries, source, groups, names)
  {
    hide Judge, Allocation, EligibleGroups, GroupSteps;
    var steps := SourceSteps(r, entries)(source);
    assert steps != [] ==> steps[0] in steps;
    groups := EligibleGroups(r.format, source);
    names := NamesOf(NamedGroups(groups));
    AllocationLength(NamedGroups(groups), names);
  }

  lemma ReportedIs(r: Request, entries: Entries, source: Source, group: Group, name: string)
    ensures var step := Judge(r, entries, source, group, name);
            !step.Blocked? ==>
              && (step.Reported? <==> group.state != Ready)
              && (step.Reported? ==> step.outcome == GroupOutcome(source.path, group.name, group.location, group.state, ""))
  {
    hide ContentOf, GeneratedPath, GeneratedDirectory, DirectoryProblem, CompleteCoordinate;
  }

  function ReportFor(source: Source, group: Group): GroupOutcome {
    GroupOutcome(source.path, group.name, group.location, group.state, "")
  }

  lemma StepsReport(r: Request, entries: Entries, source: Source, groups: seq<Group>, names: seq<string>, x: GroupOutcome)
    requires |names| == |groups| && AllClear(GroupSteps(r, entries, source, groups, names))
    ensures Reported(x) in GroupSteps(r, entries, source, groups, names) <==>
            exists group :: group in groups && group.state != Ready && x == ReportFor(source, group)
  {
    hide Judge;
    var steps := GroupSteps(r, entries, source, groups, names);
    forall i | 0 <= i < |groups|
      ensures steps[i].Reported? <==> groups[i].state != Ready
      ensures steps[i].Reported? ==> steps[i].outcome == ReportFor(source, groups[i])
    {
      assert steps[i] in steps;
      ReportedIs(r, entries, source, groups[i], names[i]);
    }
    if Reported(x) in steps {
      var i :| 0 <= i < |steps| && steps[i] == Reported(x);
      assert groups[i] in groups;
    }
    if group :| group in groups && group.state != Ready && x == ReportFor(source, group) {
      var i :| 0 <= i < |groups| && groups[i] == group;
      assert steps[i] == Reported(x);
    }
  }

  lemma ReportOfGroup(r: Request, entries: Entries, source: Source, x: GroupOutcome)
    requires AllClear(SourceSteps(r, entries)(source)) && Asked(r, source)
    ensures Reported(x) in SourceSteps(r, entries)(source) <==>
            exists group :: Eligible(r, [source], source, group) && group.state != Ready && x == ReportFor(source, group)
  {
    hide SourceSteps, GroupSteps, EligibleGroups, AllClear;
    var groups, names := StepsOf(r, entries, source);
    StepsReport(r, entries, source, groups, names, x);
    EligibleMembers(r.format, source);
    forall group ensures group in groups <==> Eligible(r, [source], source, group) {
    }
  }

  /** The outcomes of a planning that succeeded: those of its plans, and one for each eligible group that is not ready. */
  lemma OutcomesExactly(r: Request, entries: Entries, sources: seq<Source>, x: GroupOutcome)
    requires AllClear(AllSteps(r, entries, sources))
    ensures x in FlatMap(OutcomeIn, AllSteps(r, entries, sources)) <==>
            || (exists plan :: plan in PlansOf(r, entries, sources) && plan.outcome == x)
            || (exists source, group :: Eligible(r, sources, source, group) && group.state != Ready && x == ReportFor(source, group))
  {
    hide SourceSteps, FlatMap, SortBy, Asked;
    var steps := AllSteps(r, entries, sources);
    FlatMapMember(OutcomeIn, steps, x);
    SortByMembers(PlanPath, FlatMap(PlanIn, steps));
    if x in FlatMap(OutcomeIn, steps) {
      var step :| step in steps && x in OutcomeIn(step);
      FlatMapMember(SourceSteps(r, entries), sources, step);
      var source :| source in sources && step in SourceSteps(r, entries)(source);
      SourceStepsClear(r, entries, sources, source);
      if step.Planned? {
        FlatMapMember(PlanIn, steps, step.plan);
        assert step.plan in PlansOf(r, entries, sources);
      } else {
        AskedSteps(r, entries, source);
        ReportOfGroup(r, entries, source, x);
      }
    }
    if plan :| plan in PlansOf(r, entries, sources) && plan.outcome == x {
      FlatMapMember(PlanIn, steps, plan);
      var step :| step in steps && plan in PlanIn(step);
      assert x in OutcomeIn(step);
    }
    if source, group :| (Eligible(r, sources, source, group) && group.state != Ready && x == ReportFor(source, group)) {
      SourceStepsClear(r, entries, sources, source);
      assert Eligible(r, [source], source, group);
      ReportOfGroup(r, entries, source, x);
      FlatMapMember(SourceSteps(r, entries), sources, Reported(x));
      assert x in OutcomeIn(Reported(x));
    }
  }

  lemma AskedSteps(r: Request, entries: Entries, source: Source)
    requires SourceSteps(r, entries)(source) != []
    ensures Asked(r, source)
  {
    hide Judge, EligibleGroups, GroupSteps;
  }

  // ----- both phases -----

  method Generate(disk: Disk, r: Request, sources: seq<Source>, faults: Faults) returns (result: GenerationResult)
    modifies disk
    ensures result.Refused? <==>
              (r.format != PythonRequirements && r.format != MavenPom)
              || exists source :: source in sources && !SourceGenerable(r, old(disk.entries), source)
    ensures result.Refused? ==> disk.entries == old(disk.entries) && !result.error.DestinationCollision?
    ensures !result.Refused? ==>
              var plans := PlansOf(r, old(disk.entries), sources);
              var run := Run(old(disk.entries), plans, r.overwrite, faults, 0);
              && disk.entries == run.0
              && (result.Interrupted? <==> run.1 < |plans|)
              && (result.Interrupted? ==> result.written == run.1)
              && (result.Generated? ==>
                    multiset(result.outcomes) == multiset(FlatMap(OutcomeIn, AllSteps(r, old(disk.entries), sources)))
                    && |result.paths| == |plans| && forall i :: 0 <= i < |plans| ==>
                      result.paths[i] == plans[i].relative && HoldsGroup(r, sources, plans, disk.entries, i))
  {
    hide SourceSteps, SortBy, SourceGenerable, HoldsGroup;
    PlanningSucceedsIff(r, disk.entries, sources);
    if r.format != PythonRequirements && r.format != MavenPom {
      return Refused(UnsupportedFormat);
    }
    var planning := PlanAll(r, disk.entries, sources);
    if planning.PlanningFailed? {
      return Refused(planning.error);
    }
    ghost var steps := AllSteps(r, disk.entries, sources);
    var plans := SortBy(PlanPath, planning.plans);
    var paths, outcomes := disk.WriteAll(plans, r.overwrite, faults);
    if |paths| < |plans| {
      return Interrupted(|paths|);
    }
    OutcomesAccountedFor(steps, planning.plans, planning.reported, plans, outcomes);
    forall i | 0 <= i < |plans| ensures HoldsGroup(r, sources, plans, disk.entries, i) {
      FilesHoldGroups(r, old(disk.entries), sources, faults, i);
    }
    return Generated(paths, planning.reported + outcomes);
  }
}
