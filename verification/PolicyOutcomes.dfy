/** What the lockfile checks report, in terms of the scanned files alone. */
module PolicyOutcomes {
  import opened Text
  import opened Lists
  import opened Workspaces
  import opened Evidence
  import opened Reports
  import opened JavaScriptChecks
  import opened TomlChecks
  import opened Exclusions
  import opened Noninterference

  // ----- files and owners -----

  predicate Known(sources: seq<Source>, path: string) { exists s :: s in sources && s.path == path }

  function Subject(root: string): string { if root == "" then "." else root }

  ghost predicate CleanFiles(sources: seq<Source>, inputs: seq<PolicyInput>) {
    && (forall s :: s in sources ==> s.path != "" && CleanPath(s.path))
    && (forall i :: i in inputs ==> i.path != "" && CleanPath(i.path))
  }

  /** The owner of a project is the deepest root of a workspace that takes it in, or else the project. */
  ghost predicate OwnedIn(m: Matcher, spaces: set<Workspace>, project: string, owner: string) {
    || (owner == project && forall w :: w in spaces ==> !TakesIn(m, w, project))
    || exists w :: w in spaces && TakesIn(m, w, project) && w.root == owner
                   && forall other :: other in spaces && TakesIn(m, other, project) ==> |other.root| <= |owner|
  }

  lemma OwnedIff(m: Matcher, spaces: set<Workspace>, project: string, owner: string)
    requires CleanPath(project)
    ensures OwnedIn(m, spaces, project, owner) <==> owner == Owner(m, project, spaces)
  {
    OwnerIff(m, project, spaces, owner);
    hide TakesIn, Owner, CleanPath;
  }

  lemma DirClean(path: string)
    requires path != "" && CleanPath(path)
    ensures CleanPath(Dir(path)) && Dir(path) != "."
  {
    var name := DirSplits(path);
  }

  // ----- JavaScript evidence -----

  /** The workspace is declared by a pnpm file, a yarn file or a package.json. */
  predicate Declares(s: Source, w: Workspace) {
    w.root == Dir(s.path) &&
      ((s.detector == JsPnpmWorkspace && s.pnpm == Decoded(w.patterns) && w.manager == Pnpm)
       || (s.detector == JsYarnrc && w.patterns == [] && w.manager == Yarn)
       || (s.detector == Js && s.js.Decoded? && w.patterns != [] && w.patterns == s.js.value.workspaces && w.manager == s.js.value.manager))
  }

  ghost predicate Opens(sources: seq<Source>, w: Workspace) { exists s :: s in sources && Declares(s, w) }

  ghost function JsSpaces(sources: seq<Source>): (spaces: set<Workspace>)
    ensures forall w :: w in spaces <==> Opens(sources, w)
  {
    var all := Elements(FlatMap(SpaceOf, sources) + FlatMap(DeclaredSpace, FlatMap(JsOf, sources)));
    assert forall w :: w in all <==> Opens(sources, w) by {
      forall w ensures w in all <==> Opens(sources, w) { OpensIff(sources, w); }
    }
    all
  }

  lemma DeclaresIff(s: Source, w: Workspace)
    ensures Declares(s, w) <==> w in SpaceOf(s) || exists x :: x in JsOf(s) && w in DeclaredSpace(x)
  {
    hide Dir;
    if s.detector == Js && s.js.Decoded? { assert JsOf(s)[0] in JsOf(s); }
  }

  lemma OpensIff(sources: seq<Source>, w: Workspace)
    ensures w in FlatMap(SpaceOf, sources) + FlatMap(DeclaredSpace, FlatMap(JsOf, sources)) <==> Opens(sources, w)
  {
    hide Declares, SpaceOf, JsOf, DeclaredSpace, FlatMap;
    FlatMapMember(SpaceOf, sources, w);
    FlatMapMember(DeclaredSpace, FlatMap(JsOf, sources), w);
    forall x ensures x in FlatMap(JsOf, sources) <==> exists s :: s in sources && x in JsOf(s) { FlatMapMember(JsOf, sources, x); }
    forall s ensures Declares(s, w) <==> w in SpaceOf(s) || exists x :: x in JsOf(s) && w in DeclaredSpace(x) { DeclaresIff(s, w); }
  }

  /** A readable package.json that belongs to the project. */
  ghost predicate Member(m: Matcher, sources: seq<Source>, root: string, s: Source) {
    s in sources && s.detector == Js && s.js.Decoded? && OwnedIn(m, JsSpaces(sources), Dir(s.path), root)
  }

  /** A lockfile of the manager lies at the root. */
  predicate LockedFor(sources: seq<Source>, root: string, manager: Manager) {
    match manager
    case Npm => Known(sources, JoinRoot(root, "package-lock.json")) || Known(sources, JoinRoot(root, "npm-shrinkwrap.json"))
    case Pnpm => Known(sources, JoinRoot(root, "pnpm-lock.yaml"))
    case Yarn => Known(sources, JoinRoot(root, "yarn.lock"))
    case _ => false
  }

  /** Something speaks for the manager: a member's declaration, a workspace declared at the root, or a lockfile there. */
  ghost predicate SpeaksFor(m: Matcher, sources: seq<Source>, root: string, manager: Manager) {
    manager != NoManager &&
    ((exists s :: Member(m, sources, root, s) && s.js.value.manager == manager)
     || (exists w :: Opens(sources, w) && w.root == root && w.manager == manager)
     || LockedFor(sources, root, manager))
  }

  // ----- the built context says the same -----

  lemma SpacesSame(sources: seq<Source>, inputs: seq<PolicyInput>, discovered: set<string>)
    ensures Elements(ContextOf(sources, inputs, discovered).spaces) == JsSpaces(sources)
  {
    hide SortBy, FlatMap;
    var spaces := FlatMap(SpaceOf, sources) + FlatMap(DeclaredSpace, FlatMap(JsOf, sources));
    SortByMembers(SpaceRoot, spaces);
    forall w ensures w in spaces <==> Opens(sources, w) { OpensIff(sources, w); }
    hide Opens;
  }

  lemma ManifestsSame(sources: seq<Source>, inputs: seq<PolicyInput>, discovered: set<string>, x: JsManifest)
    ensures x in ContextOf(sources, inputs, discovered).javascript <==> exists s :: s in sources && x in JsOf(s)
  {
    hide SortBy, FlatMap, JsOf;
    SortByMembers(JsPath, FlatMap(JsOf, sources));
    FlatMapMember(JsOf, sources, x);
  }

  lemma KnownIff(sources: seq<Source>, inputs: seq<PolicyInput>, discovered: set<string>, path: string)
    ensures ContextOf(sources, inputs, discovered).Holds(path) <==> Known(sources, path)
  {
    PathMapHolds(sources, path);
    hide PathMap, SortBy, FlatMap;
  }

  /** A manifest of the context is a readable package.json, and belongs where it belongs. */
  lemma MemberIff(m: Matcher, sources: seq<Source>, inputs: seq<PolicyInput>, discovered: set<string>, root: string, s: Source)
    requires CleanFiles(sources, inputs) && s in sources && s.detector == Js && s.js.Decoded?
    ensures OwnerRoot(m, ContextOf(sources, inputs, discovered), JsOf(s)[0]) == root <==> Member(m, sources, root, s)
  {
    hide Owner, ContextOf, OwnedIn, CleanPath, Dir;
    SpacesSame(sources, inputs, discovered);
    DirClean(s.path);
    OwnedIff(m, JsSpaces(sources), Dir(s.path), root);
    assert JsOf(s)[0].root == Dir(s.path);
  }

  lemma ProjectIff(m: Matcher, sources: seq<Source>, inputs: seq<PolicyInput>, discovered: set<string>, root: string)
    requires CleanFiles(sources, inputs)
    ensures var ctx := ContextOf(sources, inputs, discovered);
            && (root in ProjectRoots(m, ctx) <==> exists s :: Member(m, sources, root, s))
            && (HasDeps(m, ctx, ctx.javascript, root) <==> exists s :: Member(m, sources, root, s) && s.present)
            && (HasInvalid(m, ctx, ctx.javascript, root) <==> exists s :: Member(m, sources, root, s) && s.js.value.managerInvalid)
            && (forall manager :: manager in DeclaredManagers(m, ctx, ctx.javascript, root) <==>
                  manager != NoManager && exists s :: Member(m, sources, root, s) && s.js.value.manager == manager)
  {
    hide ContextOf, OwnerRoot, OwnedIn, Dir, CleanFiles, JsSpaces;
    var ctx := ContextOf(sources, inputs, discovered);
    forall x ensures x in ctx.javascript <==> exists s :: s in sources && x in JsOf(s) {
      ManifestsSame(sources, inputs, discovered, x);
    }
    forall s | s in sources && s.detector == Js && s.js.Decoded?
      ensures OwnerRoot(m, ctx, JsOf(s)[0]) == root <==> Member(m, sources, root, s)
      ensures JsOf(s)[0] in ctx.javascript
    {
      MemberIff(m, sources, inputs, discovered, root, s);
    }
    forall x | x in ctx.javascript && OwnerRoot(m, ctx, x) == root
      ensures exists s :: Member(m, sources, root, s) && x == JsOf(s)[0]
    {
      var s :| s in sources && x in JsOf(s);
    }
  }

  lemma LockedIff(sources: seq<Source>, inputs: seq<PolicyInput>, discovered: set<string>, root: string, manager: Manager)
    ensures HasLockfile(ContextOf(sources, inputs, discovered), root, manager) <==> LockedFor(sources, root, manager)
    ensures manager in LockManagers(ContextOf(sources, inputs, discovered), root) <==> LockedFor(sources, root, manager)
  {
    hide ContextOf, Known, JoinRoot;
    var ctx := ContextOf(sources, inputs, discovered);
    forall path ensures ctx.Holds(path) <==> Known(sources, path) { KnownIff(sources, inputs, discovered, path); }
    var names := LockfileNames(manager);
    assert manager == Npm ==> names[0] == "package-lock.json" && names[1] == "npm-shrinkwrap.json";
    assert manager == Pnpm ==> names[0] == "pnpm-lock.yaml";
    assert manager == Yarn ==> names[0] == "yarn.lock";
  }

  lemma SpaceManagersIff(sources: seq<Source>, inputs: seq<PolicyInput>, discovered: set<string>, root: string, manager: Manager)
    ensures manager in SpaceManagers(ContextOf(sources, inputs, discovered).spaces, root) <==>
            manager != NoManager && exists w :: Opens(sources, w) && w.root == root && w.manager == manager
  {
    hide ContextOf, Opens;
    SpacesSame(sources, inputs, discovered);
    forall w ensures w in ContextOf(sources, inputs, discovered).spaces <==> Opens(sources, w) {
      assert w in Elements(ContextOf(sources, inputs, discovered).spaces) <==> w in JsSpaces(sources);
    }
  }

  lemma SpeaksIff(m: Matcher, sources: seq<Source>, inputs: seq<PolicyInput>, discovered: set<string>, root: string, manager: Manager)
    requires CleanFiles(sources, inputs)
    ensures manager in Managers(m, ContextOf(sources, inputs, discovered), root) <==> SpeaksFor(m, sources, root, manager)
  {
    hide ContextOf, DeclaredManagers, SpaceManagers, LockManagers, Opens, Member, HasDeps, HasInvalid, ProjectRoots, LockedFor;
    ProjectIff(m, sources, inputs, discovered, root);
    LockedIff(sources, inputs, discovered, root, manager);
    SpaceManagersIff(sources, inputs, discovered, root, manager);
  }

  /** The project has dependencies, and all that speaks for a manager speaks for this one. */
  ghost predicate Selected(m: Matcher, sources: seq<Source>, root: string, manager: Manager) {
    && (exists s :: Member(m, sources, root, s) && s.present)
    && (forall s :: Member(m, sources, root, s) ==> !s.js.value.managerInvalid)
    && SpeaksFor(m, sources, root, manager)
    && (forall other :: SpeaksFor(m, sources, root, other) ==> other == manager)
  }

  /** Something speaks for the manager, but so does something for another one, or a declaration is invalid. */
  ghost predicate Unclear(m: Matcher, sources: seq<Source>, root: string, manager: Manager) {
    && (exists s :: Member(m, sources, root, s) && s.present) && SpeaksFor(m, sources, root, manager)
    && ((exists s :: Member(m, sources, root, s) && s.js.value.managerInvalid)
        || exists other :: SpeaksFor(m, sources, root, other) && other != manager)
  }

  lemma SelectedIff(m: Matcher, sources: seq<Source>, inputs: seq<PolicyInput>, discovered: set<string>, root: string, manager: Manager)
    requires CleanFiles(sources, inputs)
    ensures var ctx := ContextOf(sources, inputs, discovered);
            && (Selected(m, sources, root, manager) <==>
                  HasDeps(m, ctx, ctx.javascript, root) && !HasInvalid(m, ctx, ctx.javascript, root) && Managers(m, ctx, root) == {manager})
            && (Unclear(m, sources, root, manager) <==> VerdictAt(m, ctx, manager, root) == Ambiguous)
  {
    hide ContextOf, Managers, SpeaksFor, Member, HasDeps, HasInvalid, HasLockfile;
    var ctx := ContextOf(sources, inputs, discovered);
    ProjectIff(m, sources, inputs, discovered, root);
    forall other ensures other in Managers(m, ctx, root) <==> SpeaksFor(m, sources, root, other) {
      SpeaksIff(m, sources, inputs, discovered, root, other);
    }
    assert Managers(m, ctx, root) == {manager} <==>
           manager in Managers(m, ctx, root) && forall other :: other in Managers(m, ctx, root) ==> other == manager;
  }

  /** The root is one that some package.json belongs to. */
  ghost predicate HasProject(m: Matcher, sources: seq<Source>, root: string) { exists s :: Member(m, sources, root, s) }

  /** The three missing-lockfile checks, for every scan and every project: completed, skipped as ambiguous, or reported. */
  lemma MissingLockfileIff(m: Matcher, sources: seq<Source>, inputs: seq<PolicyInput>, discovered: set<string>, check: Check, root: string)
    requires CleanFiles(sources, inputs) && check.evaluator.LockfileMissing? && HasProject(m, sources, root)
    ensures var manager := check.evaluator.manager;
            var outcome := OutcomeOf(m, ContextOf(sources, inputs, discovered), check);
            && (CheckRun(check.id, Subject(root), Completed) in outcome.runs <==> Selected(m, sources, root, manager))
            && (CheckRun(check.id, Subject(root), Skipped(AmbiguousPackageManager)) in outcome.runs <==> Unclear(m, sources, root, manager))
            && ((exists f :: f in outcome.findings && f.subject == Subject(root)) <==>
                  Selected(m, sources, root, manager) && !LockedFor(sources, root, manager))
  {
    hide ContextOf, Managers, SpeaksFor, Member, HasDeps, HasInvalid, HasLockfile, ProjectRoots, LockfileRuns, LockfileFindings,
         RootsClean, Selected, Unclear, LockedFor, VerdictAt, LockManagers;
    var manager := check.evaluator.manager;
    var ctx := ContextOf(sources, inputs, discovered);
    BuiltRootsClean(sources, inputs, discovered);
    ProjectIff(m, sources, inputs, discovered, root);
    SelectedIff(m, sources, inputs, discovered, root, manager);
    LockedIff(sources, inputs, discovered, root, manager);
    assert Subject(root) == ProjectSubject(root);
    CompletedIff(m, ctx, check.id, manager, root);
    MissingIff(m, ctx, check.id, manager, root);
    AmbiguousIff(m, ctx, check.id, manager, root);
  }

  lemma AmbiguousIff(m: Matcher, ctx: Context, check: string, manager: Manager, root: string)
    requires RootsClean(ctx) && root in ProjectRoots(m, ctx)
    ensures CheckRun(check, ProjectSubject(root), Skipped(AmbiguousPackageManager)) in LockfileRuns(m, ctx, check, manager) <==>
            VerdictAt(m, ctx, manager, root) == Ambiguous
  {
    hide LockfileRuns, VerdictAt, ProjectRoots, RootsClean;
    UnfailedRunAt(m, ctx, check, manager, root, CheckRun(check, ProjectSubject(root), Skipped(AmbiguousPackageManager)));
  }

  /** Nothing else is ever reported: every finding is about a project. */
  lemma FindingsAreAboutProjects(m: Matcher, sources: seq<Source>, inputs: seq<PolicyInput>, discovered: set<string>, check: Check, f: Finding)
    requires CleanFiles(sources, inputs) && (check.evaluator.LockfileMissing? || check.evaluator.LockfilesConflict?)
    requires f in OutcomeOf(m, ContextOf(sources, inputs, discovered), check).findings
    ensures exists root :: HasProject(m, sources, root) && f.subject == Subject(root)
  {
    var ctx := ContextOf(sources, inputs, discovered);
    hide ContextOf, LockfileFindings, ConflictFindings, LockfileRuns, ConflictRuns, VerdictAt, ProjectRoots, LockManagers, Member;
    var root;
    if check.evaluator.LockfileMissing? {
      root := FindingComesFromRoot(m, ctx, check.id, check.evaluator.manager, f);
    } else {
      root := ConflictComesFromRoot(m, ctx, check.id, f);
    }
    ProjectIff(m, sources, inputs, discovered, root);
    assert Subject(root) == ProjectSubject(root);
  }

  /** The conflict check reports a project if and only if lockfiles of two managers lie at its root. */
  lemma ConflictReportedIff(m: Matcher, sources: seq<Source>, inputs: seq<PolicyInput>, discovered: set<string>, check: Check, root: string)
    requires CleanFiles(sources, inputs) && check.evaluator.LockfilesConflict? && HasProject(m, sources, root)
    ensures var outcome := OutcomeOf(m, ContextOf(sources, inputs, discovered), check);
            (exists f :: f in outcome.findings && f.subject == Subject(root)) <==>
            exists one, other :: one != other && LockedFor(sources, root, one) && LockedFor(sources, root, other)
  {
    hide ContextOf, Member, ProjectRoots, ConflictFindings, ConflictRuns, RootsClean, LockedFor, LockManagers;
    var ctx := ContextOf(sources, inputs, discovered);
    BuiltRootsClean(sources, inputs, discovered);
    ProjectIff(m, sources, inputs, discovered, root);
    forall manager ensures manager in LockManagers(ctx, root) <==> LockedFor(sources, root, manager) {
      LockedIff(sources, inputs, discovered, root, manager);
    }
    assert Subject(root) == ProjectSubject(root);
    ConflictIff(m, ctx, check.id, root);
    TwoElements(LockManagers(ctx, root));
  }

  lemma TwoElements(managers: set<Manager>)
    ensures |managers| >= 2 <==> exists one, other :: one != other && one in managers && other in managers
  {
    if managers != {} {
      var one :| one in managers;
      var rest := managers - {one};
      assert managers == rest + {one};
      if |managers| >= 2 {
        assert rest != {};
        var other :| other in rest;
      }
      if a, b :| a != b && a in managers && b in managers {
        assert a in rest || b in rest;
        assert rest != {};
      }
    }
  }

  // ----- Cargo -----

  ghost function CargoSpacesIn(sources: seq<Source>): (spaces: set<Workspace>)
    ensures forall w :: w in spaces <==>
              exists s :: s in sources && s.detector == RustCargo && s.cargo.Decoded?
                          && w.root == Dir(s.path) && w.patterns != [] && w.patterns == s.cargo.value.workspaces && w.manager == Workspaces.Cargo
  {
    hide Dir;
    set s | s in sources && s.detector == RustCargo && s.cargo.Decoded? && s.cargo.value.workspaces != [] ::
      Workspace(Dir(s.path), s.cargo.value.workspaces, Workspaces.Cargo)
  }

  /** A manifest of an application with dependencies, not a virtual workspace root, that belongs to the root. */
  ghost predicate Application(m: Matcher, sources: seq<Source>, discovered: set<string>, root: string, s: Source) {
    && s in sources && s.detector == RustCargo && s.cargo.Decoded? && OwnedIn(m, CargoSpacesIn(sources), Dir(s.path), root)
    && var facts := s.cargo.value;
       && facts.hasDeps && (facts.hasPackage || facts.workspaces == [])
       && (facts.application || JoinRoot(Dir(s.path), "src/main.rs") in discovered)
  }

  lemma CargoManifestIff(sources: seq<Source>, inputs: seq<PolicyInput>, discovered: set<string>, x: CargoManifest)
    ensures x in ContextOf(sources, inputs, discovered).cargo <==> exists s :: s in sources && x in CargoOf(discovered)(s)
  {
    hide SortBy, FlatMap, CargoOf;
    SortByMembers(CargoPath, FlatMap(CargoOf(discovered), sources));
    FlatMapMember(CargoOf(discovered), sources, x);
  }

  lemma CargoSpacesSame(sources: seq<Source>, inputs: seq<PolicyInput>, discovered: set<string>)
    ensures Elements(CargoSpaces(ContextOf(sources, inputs, discovered).cargo)) == CargoSpacesIn(sources)
  {
    hide ContextOf, Dir, JoinRoot, FlatMap;
    var cargo := ContextOf(sources, inputs, discovered).cargo;
    forall x ensures x in cargo <==> exists s :: s in sources && x in CargoOf(discovered)(s) { CargoManifestIff(sources, inputs, discovered, x); }
    forall w ensures w in CargoSpaces(cargo) <==> w in CargoSpacesIn(sources) {
      FlatMapMember(CargoSpace, cargo, w);
      if w in CargoSpacesIn(sources) {
        var s :| (s in sources && s.detector == RustCargo && s.cargo.Decoded?
                  && w.root == Dir(s.path) && w.patterns != [] && w.patterns == s.cargo.value.workspaces && w.manager == Workspaces.Cargo);
        var x := CargoOf(discovered)(s)[0];
        assert x in CargoOf(discovered)(s) && x in cargo && w in CargoSpace(x);
      }
    }
  }

  lemma ApplicationIff(m: Matcher, sources: seq<Source>, inputs: seq<PolicyInput>, discovered: set<string>, root: string)
    requires CleanFiles(sources, inputs)
    ensures var ctx := ContextOf(sources, inputs, discovered);
            root in CargoSeen(m, ctx, ctx.cargo) <==> exists s :: Application(m, sources, discovered, root, s)
  {
    hide ContextOf, CargoOwner, OwnedIn, Dir, JoinRoot, CleanFiles, CargoCounts, Application;
    var ctx := ContextOf(sources, inputs, discovered);
    if root in CargoSeen(m, ctx, ctx.cargo) {
      var x :| x in ctx.cargo && CargoCounts(x) && x.application && CargoOwner(m, ctx, x) == root;
      CargoManifestIff(sources, inputs, discovered, x);
      var s :| s in sources && x in CargoOf(discovered)(s);
      assert x == CargoOf(discovered)(s)[0];
      ApplicationHere(m, sources, inputs, discovered, root, s);
    }
    if s :| Application(m, sources, discovered, root, s) {
      ApplicationIsSource(m, sources, discovered, root, s);
      ApplicationHere(m, sources, inputs, discovered, root, s);
      var x := CargoOf(discovered)(s)[0];
      assert x in CargoOf(discovered)(s);
      CargoManifestIff(sources, inputs, discovered, x);
    }
  }

  lemma ApplicationIsSource(m: Matcher, sources: seq<Source>, discovered: set<string>, root: string, s: Source)
    requires Application(m, sources, discovered, root, s)
    ensures s in sources && s.detector == RustCargo && s.cargo.Decoded?
  {
  }

  lemma ApplicationHere(m: Matcher, sources: seq<Source>, inputs: seq<PolicyInput>, discovered: set<string>, root: string, s: Source)
    requires CleanFiles(sources, inputs) && s in sources && s.detector == RustCargo && s.cargo.Decoded?
    ensures var ctx, x := ContextOf(sources, inputs, discovered), CargoOf(discovered)(s)[0];
            (CargoOwner(m, ctx, x) == root && CargoCounts(x) && x.application) <==> Application(m, sources, discovered, root, s)
  {
    CargoSpacesSame(sources, inputs, discovered);
    DirClean(s.path);
    hide Owner, ContextOf, OwnedIn, CleanPath, Dir, JoinRoot, CargoSpaces;
    OwnedIff(m, CargoSpacesIn(sources), Dir(s.path), root);
  }

  /** The Cargo check completes a root if and only if an application belongs to it, and reports it if and only if
      moreover no Cargo.lock is there. */
  lemma CargoReportedIff(m: Matcher, sources: seq<Source>, inputs: seq<PolicyInput>, discovered: set<string>, check: Check, root: string)
    requires CleanFiles(sources, inputs) && check.evaluator.CargoLockMissing? && root != "."
    ensures var outcome := OutcomeOf(m, ContextOf(sources, inputs, discovered), check);
            && (CheckRun(check.id, Subject(root), Completed) in outcome.runs <==> exists s :: Application(m, sources, discovered, root, s))
            && ((exists f :: f in outcome.findings && f.subject == Subject(root)) <==>
                  (exists s :: Application(m, sources, discovered, root, s)) && !Known(sources, JoinRoot(root, "Cargo.lock")))
  {
    hide ContextOf, Application, CargoSeen, CargoRuns, CargoFindings, CargoRootsClean, Known, JoinRoot;
    var ctx := ContextOf(sources, inputs, discovered);
    BuiltCargoRootsClean(sources, inputs, discovered);
    ApplicationIff(m, sources, inputs, discovered, root);
    KnownIff(sources, inputs, discovered, JoinRoot(root, "Cargo.lock"));
    assert Subject(root) == ProjectSubject(root);
    CargoCompletedIff(m, ctx, check.id, root);
    CargoFindingIff(m, ctx, check.id, root);
  }

  // ----- uv -----

  ghost function UvSpacesIn(inputs: seq<PolicyInput>): (spaces: set<Workspace>)
    ensures forall w :: w in spaces <==>
              exists i :: i in inputs && i.uv.Decoded?
                          && w.root == Dir(i.path) && w.patterns != [] && w.patterns == i.uv.value.workspaces && w.manager == Uv
  {
    hide Dir;
    set i | i in inputs && i.uv.Decoded? && i.uv.value.workspaces != [] :: Workspace(Dir(i.path), i.uv.value.workspaces, Uv)
  }

  /** One pyproject file for each directory. */
  ghost predicate OnePerDirectory(inputs: seq<PolicyInput>) {
    forall i, j :: i in inputs && j in inputs && i.uv.Decoded? && j.uv.Decoded? && Dir(i.path) == Dir(j.path) ==> i.uv == j.uv
  }

  /** A pyproject file with dependencies that belongs to the root, where uv manages the root's own file. */
  ghost predicate UvProject(m: Matcher, inputs: seq<PolicyInput>, root: string, i: PolicyInput) {
    && i in inputs && i.uv.Decoded? && OwnedIn(m, UvSpacesIn(inputs), Dir(i.path), root) && i.uv.value.hasDeps
    && exists own :: own in inputs && own.uv.Decoded? && Dir(own.path) == root && own.uv.value.managed
  }

  lemma UvManifestIff(sources: seq<Source>, inputs: seq<PolicyInput>, discovered: set<string>, x: UvManifest)
    ensures x in ContextOf(sources, inputs, discovered).uv <==> exists i :: i in inputs && x in UvOf(i)
  {
    hide SortBy, FlatMap, UvOf;
    SortByMembers(UvPath, FlatMap(UvOf, inputs));
    FlatMapMember(UvOf, inputs, x);
  }

  lemma UvSpacesSame(sources: seq<Source>, inputs: seq<PolicyInput>, discovered: set<string>)
    ensures Elements(UvSpaces(ContextOf(sources, inputs, discovered).uv)) == UvSpacesIn(inputs)
  {
    hide ContextOf, Dir, JoinRoot, FlatMap;
    var uv := ContextOf(sources, inputs, discovered).uv;
    forall x ensures x in uv <==> exists i :: i in inputs && x in UvOf(i) { UvManifestIff(sources, inputs, discovered, x); }
    forall w ensures w in UvSpaces(uv) <==> w in UvSpacesIn(inputs) {
      FlatMapMember(UvSpace, uv, w);
      if w in UvSpacesIn(inputs) {
        var i :| (i in inputs && i.uv.Decoded?
                  && w.root == Dir(i.path) && w.patterns != [] && w.patterns == i.uv.value.workspaces && w.manager == Uv);
        var x := UvOf(i)[0];
        assert x in UvOf(i) && x in uv && w in UvSpace(x);
      }
    }
  }

  lemma {:induction false} FirstAtIs(manifests: seq<UvManifest>, root: string)
    ensures var first := FirstAt(manifests, root); first.Some? ==> first.value in manifests && first.value.root == root
    ensures FirstAt(manifests, root).None? ==> forall x :: x in manifests ==> x.root != root
  {
    if manifests != [] && manifests[0].root != root {
      FirstAtIs(manifests[1..], root);
      assert forall x :: x in manifests <==> x == manifests[0] || x in manifests[1..];
    }
  }

  /** Whether a manifest counts: it has dependencies and the file at its owner is managed by uv. */
  lemma CountsIff(m: Matcher, sources: seq<Source>, inputs: seq<PolicyInput>, discovered: set<string>, root: string, i: PolicyInput)
    requires CleanFiles(sources, inputs) && OnePerDirectory(inputs) && i in inputs && i.uv.Decoded?
    ensures var ctx, x := ContextOf(sources, inputs, discovered), UvOf(i)[0];
            UvOwner(m, ctx, x) == root && UvCounts(m, ctx, x) <==> UvProject(m, inputs, root, i)
  {
    hide ContextOf, OwnedIn, CleanPath, Dir, UvSpaces, UvSpacesIn, Owner, FirstAt;
    var ctx, x := ContextOf(sources, inputs, discovered), UvOf(i)[0];
    UvSpacesSame(sources, inputs, discovered);
    DirClean(i.path);
    OwnedIff(m, UvSpacesIn(inputs), Dir(i.path), root);
    forall y ensures y in ctx.uv <==> exists j :: j in inputs && y in UvOf(j) { UvManifestIff(sources, inputs, discovered, y); }
    assert x in UvOf(i) && x in ctx.uv;
    UvOwnerHasManifest(m, ctx, x);
    FirstAtIs(ctx.uv, UvOwner(m, ctx, x));
    if UvOwner(m, ctx, x) == root {
      var own := FirstAt(ctx.uv, root).value;
      var j :| j in inputs && own in UvOf(j);
      assert Dir(j.path) == root && j.uv.value.managed == own.managed;
      assert root == x.root ==> i.uv == j.uv;
    }
  }

  /** The uv check reports a root if and only if a counting pyproject file belongs to it and no uv.lock is there. */
  lemma UvReportedIff(m: Matcher, sources: seq<Source>, inputs: seq<PolicyInput>, discovered: set<string>, check: Check, root: string)
    requires CleanFiles(sources, inputs) && OnePerDirectory(inputs) && check.evaluator.UvLockMissing? && root != "."
    ensures var outcome := OutcomeOf(m, ContextOf(sources, inputs, discovered), check);
            (exists f :: f in outcome.findings && f.subject == Subject(root)) <==>
            (exists i :: UvProject(m, inputs, root, i)) && !Known(sources, JoinRoot(root, "uv.lock"))
  {
    hide ContextOf, UvCounts, UvOwner, UvProject, UvRuns, UvFindings, OnePerDirectory, CleanFiles, JoinRoot, Known, FirstAt, UvOf;
    var ctx := ContextOf(sources, inputs, discovered);
    KnownIff(sources, inputs, discovered, JoinRoot(root, "uv.lock"));
    if f :| f in UvFindings(m, ctx, check.id) && f.subject == Subject(root) {
      var x := UvFindingSound(m, ctx, check.id, f);
      UvRootOf(m, sources, inputs, discovered, x, root);
    }
    if i :| UvProject(m, inputs, root, i) && !Known(sources, JoinRoot(root, "uv.lock")) {
      var x := UvManifestOf(m, sources, inputs, discovered, root, i);
      UvFindingComplete(m, ctx, check.id, x);
      assert UvFinding(check.id, root, FirstAt(ctx.uv, root).value.path) in UvFindings(m, ctx, check.id);
    }
  }

  lemma UvManifestOf(m: Matcher, sources: seq<Source>, inputs: seq<PolicyInput>, discovered: set<string>, root: string, i: PolicyInput)
    returns (x: UvManifest)
    requires CleanFiles(sources, inputs) && OnePerDirectory(inputs) && UvProject(m, inputs, root, i)
    ensures var ctx := ContextOf(sources, inputs, discovered); x in ctx.uv && UvOwner(m, ctx, x) == root && UvCounts(m, ctx, x)
  {
    hide ContextOf, UvCounts, UvOwner, OnePerDirectory, CleanFiles, OwnedIn, Dir;
    x := UvOf(i)[0];
    assert x in UvOf(i);
    UvManifestIff(sources, inputs, discovered, x);
    CountsIff(m, sources, inputs, discovered, root, i);
  }

  /** The root that a finding's subject names is the owner of the manifest behind it. */
  lemma UvRootOf(m: Matcher, sources: seq<Source>, inputs: seq<PolicyInput>, discovered: set<string>, x: UvManifest, root: string)
    requires CleanFiles(sources, inputs) && OnePerDirectory(inputs) && root != "."
    requires var ctx := ContextOf(sources, inputs, discovered);
             x in ctx.uv && UvCounts(m, ctx, x) && Subject(root) == ProjectSubject(UvOwner(m, ctx, x))
    ensures UvOwner(m, ContextOf(sources, inputs, discovered), x) == root
    ensures exists i :: UvProject(m, inputs, root, i)
  {
    hide ContextOf, UvCounts, UvOwner, UvProject, OnePerDirectory, FirstAt, CleanPath;
    var ctx := ContextOf(sources, inputs, discovered);
    UvManifestIff(sources, inputs, discovered, x);
    var i :| i in inputs && x in UvOf(i);
    assert x == UvOf(i)[0];
    UvOwnerHasManifest(m, ctx, x);
    FirstAtIs(ctx.uv, UvOwner(m, ctx, x));
    var own := FirstAt(ctx.uv, UvOwner(m, ctx, x)).value;
    UvManifestIff(sources, inputs, discovered, own);
    CountsIff(m, sources, inputs, discovered, UvOwner(m, ctx, x), i);
  }

  // ----- failures and skips -----

  /** A policy file that cannot be decoded. */
  predicate Unreadable(s: Source, detail: string) {
    || (s.detector == Js && s.js == Malformed(detail))
    || (s.detector == JsPnpmWorkspace && s.pnpm == Malformed(detail))
    || (s.detector == RustCargo && s.cargo == Malformed(detail))
  }

  ghost predicate Broken(s: Source) { exists detail :: Unreadable(s, detail) }

  lemma ErrorIff(sources: seq<Source>, inputs: seq<PolicyInput>, discovered: set<string>, e: ParseError)
    ensures e in ContextOf(sources, inputs, discovered).parseErrors <==>
            || (exists s :: s in sources && e.detector == s.detector && e.path == s.path && Unreadable(s, e.detail))
            || (exists i :: i in inputs && e == ParseError(PythonPyproject, i.path, e.detail) && i.uv == Malformed(e.detail))
  {
    hide SortBy, FlatMap, PathMap;
    FlatMapMember(ErrorOf, sources, e);
    FlatMapMember(UvErrorOf, inputs, e);
    forall s ensures e in ErrorOf(s) <==> e.detector == s.detector && e.path == s.path && Unreadable(s, e.detail) { UnreadableIff(s, e); }
    hide ErrorOf, Unreadable;
    forall i ensures e in UvErrorOf(i) <==> e == ParseError(PythonPyproject, i.path, e.detail) && i.uv == Malformed(e.detail) {
    }
  }

  lemma UnreadableIff(s: Source, e: ParseError)
    ensures e in ErrorOf(s) <==> e.detector == s.detector && e.path == s.path && Unreadable(s, e.detail)
  {
  }

  /** Exactly the files of the detector that cannot be read give failed runs. */
  lemma FailedRunIff(sources: seq<Source>, inputs: seq<PolicyInput>, discovered: set<string>, check: string, detector: Detector,
                     subject: string, detail: string)
    ensures CheckRun(check, subject, Failed(detail)) in FailedRuns(ContextOf(sources, inputs, discovered), check, detector) <==>
            || (exists s :: s in sources && s.detector == detector && subject == Subject(Dir(s.path)) && Unreadable(s, detail))
            || (exists i :: i in inputs && detector == PythonPyproject && subject == Subject(Dir(i.path)) && i.uv == Malformed(detail))
  {
    hide ContextOf, Dir, FlatMap, Unreadable;
    var errors := ContextOf(sources, inputs, discovered).parseErrors;
    var run := CheckRun(check, subject, Failed(detail));
    FlatMapMember(FailedRunOf(check, detector), errors, run);
    forall e ensures run in FailedRunOf(check, detector)(e) <==>
                     e.detector == detector && subject == Subject(Dir(e.path)) && e.detail == detail {
    }
    forall path ensures ParseError(detector, path, detail) in errors <==>
                        || (exists s :: s in sources && detector == s.detector && path == s.path && Unreadable(s, detail))
                        || (exists i :: i in inputs && detector == PythonPyproject && path == i.path && i.uv == Malformed(detail))
    {
      ErrorIff(sources, inputs, discovered, ParseError(detector, path, detail));
    }
    if s :| s in sources && s.detector == detector && subject == Subject(Dir(s.path)) && Unreadable(s, detail) {
      assert ParseError(detector, s.path, detail) in errors;
    }
    if i :| i in inputs && detector == PythonPyproject && subject == Subject(Dir(i.path)) && i.uv == Malformed(detail) {
      assert ParseError(detector, i.path, detail) in errors;
    }
    if run in FailedRuns(ContextOf(sources, inputs, discovered), check, detector) {
      var e :| e in errors && run in FailedRunOf(check, detector)(e);
      assert e == ParseError(detector, e.path, detail);
    }
  }

  /** The files an evaluator finds its projects in, readable or not. */
  ghost predicate Starts(sources: seq<Source>, inputs: seq<PolicyInput>, evaluator: Evaluator, root: string) {
    match evaluator
    case UvLockMissing => exists i :: i in inputs && Dir(i.path) == root
    case CargoLockMissing => exists s :: s in sources && s.detector == RustCargo && Dir(s.path) == root
    case _ => exists s :: s in sources && s.detector in {Js, JsPnpmWorkspace, JsYarnrc} && Dir(s.path) == root
  }

  lemma JsRoots(sources: seq<Source>, inputs: seq<PolicyInput>, discovered: set<string>, root: string)
    ensures (exists x :: x in ContextOf(sources, inputs, discovered).javascript && x.root == root) <==>
            exists s :: s in sources && s.detector == Js && s.js.Decoded? && Dir(s.path) == root
  {
    hide ContextOf, Dir;
    var manifests := ContextOf(sources, inputs, discovered).javascript;
    forall x ensures x in manifests <==> exists s :: s in sources && x in JsOf(s) { ManifestsSame(sources, inputs, discovered, x); }
    if s :| s in sources && s.detector == Js && s.js.Decoded? && Dir(s.path) == root {
      assert JsOf(s)[0] in JsOf(s) && JsOf(s)[0] in manifests;
    }
  }

  predicate SpaceFile(s: Source) {
    (s.detector == JsPnpmWorkspace && s.pnpm.Decoded?) || s.detector == JsYarnrc || (s.detector == Js && s.js.Decoded? && s.js.value.workspaces != [])
  }

  lemma SpaceRoots(sources: seq<Source>, inputs: seq<PolicyInput>, discovered: set<string>, root: string)
    ensures (exists w :: w in ContextOf(sources, inputs, discovered).spaces && w.root == root) <==>
            exists s :: s in sources && SpaceFile(s) && Dir(s.path) == root
  {
    hide ContextOf, Dir;
    var spaces := ContextOf(sources, inputs, discovered).spaces;
    SpacesSame(sources, inputs, discovered);
    forall w ensures w in spaces <==> Opens(sources, w) {
      assert w in Elements(spaces) <==> w in JsSpaces(sources);
    }
    hide JsSpaces;
    if s :| s in sources && SpaceFile(s) && Dir(s.path) == root {
      var w := if s.detector == JsYarnrc then Workspace(root, [], Yarn)
               else if s.detector == Js then Workspace(root, s.js.value.workspaces, s.js.value.manager)
               else Workspace(root, s.pnpm.value, Pnpm);
      assert Declares(s, w);
      assert w in spaces;
    }
  }

  lemma UvRoots(sources: seq<Source>, inputs: seq<PolicyInput>, discovered: set<string>, root: string)
    ensures (exists x :: x in ContextOf(sources, inputs, discovered).uv && x.root == root) <==>
            exists i :: i in inputs && i.uv.Decoded? && Dir(i.path) == root
  {
    hide ContextOf, Dir;
    var manifests := ContextOf(sources, inputs, discovered).uv;
    forall x ensures x in manifests <==> exists i :: i in inputs && x in UvOf(i) { UvManifestIff(sources, inputs, discovered, x); }
    if i :| i in inputs && i.uv.Decoded? && Dir(i.path) == root {
      assert UvOf(i)[0] in UvOf(i) && UvOf(i)[0] in manifests;
    }
  }

  lemma CargoRoots(sources: seq<Source>, inputs: seq<PolicyInput>, discovered: set<string>, root: string)
    ensures (exists x :: x in ContextOf(sources, inputs, discovered).cargo && x.root == root) <==>
            exists s :: s in sources && s.detector == RustCargo && s.cargo.Decoded? && Dir(s.path) == root
  {
    hide ContextOf, Dir, JoinRoot;
    var manifests := ContextOf(sources, inputs, discovered).cargo;
    forall x ensures x in manifests <==> exists s :: s in sources && x in CargoOf(discovered)(s) { CargoManifestIff(sources, inputs, discovered, x); }
    if s :| s in sources && s.detector == RustCargo && s.cargo.Decoded? && Dir(s.path) == root {
      assert CargoOf(discovered)(s)[0] in CargoOf(discovered)(s) && CargoOf(discovered)(s)[0] in manifests;
    }
  }

  lemma ManifestRootsIff(ctx: Context, evaluator: Evaluator, root: string)
    ensures root in ManifestRoots(ctx, evaluator) <==>
            match evaluator
            case UvLockMissing => exists x :: x in ctx.uv && x.root == root
            case CargoLockMissing => exists x :: x in ctx.cargo && x.root == root
            case _ => (exists x :: x in ctx.javascript && x.root == root) || exists w :: w in ctx.spaces && w.root == root
  {
  }

  lemma ErrorStarts(sources: seq<Source>, inputs: seq<PolicyInput>, discovered: set<string>, evaluator: Evaluator, root: string)
    ensures root in ErrorRoots(ContextOf(sources, inputs, discovered), evaluator) <==>
            || (exists s :: s in sources && Dir(s.path) == root && s.detector in Prerequisites(evaluator) && Broken(s))
            || (exists i :: i in inputs && Dir(i.path) == root && PythonPyproject in Prerequisites(evaluator) && i.uv.Malformed?)
  {
    hide ContextOf, Dir, Prerequisites, Unreadable;
    var errors := ContextOf(sources, inputs, discovered).parseErrors;
    forall e ensures e in errors <==>
                     || (exists s :: s in sources && e.detector == s.detector && e.path == s.path && Unreadable(s, e.detail))
                     || (exists i :: i in inputs && e == ParseError(PythonPyproject, i.path, e.detail) && i.uv == Malformed(e.detail))
    {
      ErrorIff(sources, inputs, discovered, e);
    }
    if s :| s in sources && Dir(s.path) == root && s.detector in Prerequisites(evaluator) && Broken(s) {
      var detail :| Unreadable(s, detail);
      var e := ParseError(s.detector, s.path, detail);
      assert e in errors && Dir(e.path) == root;
    }
    if i :| i in inputs && Dir(i.path) == root && PythonPyproject in Prerequisites(evaluator) && i.uv.Malformed? {
      var e := ParseError(PythonPyproject, i.path, i.uv.detail);
      assert e in errors && Dir(e.path) == root;
    }
  }

  lemma DecodedOrNot(s: Source)
    ensures s.detector == Js ==> s.js.Decoded? || Broken(s)
    ensures s.detector == JsPnpmWorkspace ==> SpaceFile(s) || Broken(s)
    ensures s.detector == RustCargo ==> s.cargo.Decoded? || Broken(s)
    ensures s.detector == JsYarnrc ==> SpaceFile(s)
    ensures SpaceFile(s) ==> s.detector in {Js, JsPnpmWorkspace, JsYarnrc}
    ensures Broken(s) ==> s.detector in {Js, JsPnpmWorkspace, RustCargo}
  {
    if s.detector == Js && s.js.Malformed? { assert Unreadable(s, s.js.detail); }
    if s.detector == JsPnpmWorkspace && s.pnpm.Malformed? { assert Unreadable(s, s.pnpm.detail); }
    if s.detector == RustCargo && s.cargo.Malformed? { assert Unreadable(s, s.cargo.detail); }
  }

  lemma StartsIff(sources: seq<Source>, inputs: seq<PolicyInput>, discovered: set<string>, evaluator: Evaluator, root: string)
    ensures var ctx := ContextOf(sources, inputs, discovered);
            root in ManifestRoots(ctx, evaluator) + ErrorRoots(ctx, evaluator) <==> Starts(sources, inputs, evaluator, root)
  {
    hide ContextOf, Dir, ManifestRoots, ErrorRoots, Broken, SpaceFile;
    ManifestRootsIff(ContextOf(sources, inputs, discovered), evaluator, root);
    ErrorStarts(sources, inputs, discovered, evaluator, root);
    forall s | s in sources
      ensures s.detector == Js ==> s.js.Decoded? || Broken(s)
      ensures s.detector == JsPnpmWorkspace ==> SpaceFile(s) || Broken(s)
      ensures s.detector == RustCargo ==> s.cargo.Decoded? || Broken(s)
      ensures s.detector == JsYarnrc ==> SpaceFile(s)
      ensures SpaceFile(s) ==> s.detector in {Js, JsPnpmWorkspace, JsYarnrc}
      ensures Broken(s) ==> s.detector in {Js, JsPnpmWorkspace, RustCargo}
    {
      DecodedOrNot(s);
    }
    match evaluator {
      case UvLockMissing => UvRoots(sources, inputs, discovered, root);
      case CargoLockMissing => CargoRoots(sources, inputs, discovered, root);
      case _ =>
        JsRoots(sources, inputs, discovered, root);
        SpaceRoots(sources, inputs, discovered, root);
    }
  }

  /** A check with a disabled prerequisite skips the directory of every file that could start a project, or the scan
      root when there is none. */
  lemma SkippedSubjectsIff(sources: seq<Source>, inputs: seq<PolicyInput>, discovered: set<string>, evaluator: Evaluator, subject: string)
    ensures subject in SkippedSubjects(ContextOf(sources, inputs, discovered), evaluator) <==>
            || (exists root :: Starts(sources, inputs, evaluator, root) && subject == Subject(root))
            || (subject == "." && forall root :: !Starts(sources, inputs, evaluator, root))
  {
    hide ContextOf, ManifestRoots, ErrorRoots, Starts;
    var ctx := ContextOf(sources, inputs, discovered);
    forall root ensures root in ManifestRoots(ctx, evaluator) + ErrorRoots(ctx, evaluator) <==> Starts(sources, inputs, evaluator, root) {
      StartsIff(sources, inputs, discovered, evaluator, root);
    }
    var roots := ManifestRoots(ctx, evaluator) + ErrorRoots(ctx, evaluator);
    var subjects := set root | root in roots :: ProjectSubject(root);
    if root :| Starts(sources, inputs, evaluator, root) {
      assert ProjectSubject(root) in subjects;
    }
  }
}
