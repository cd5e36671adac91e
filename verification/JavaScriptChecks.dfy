/** The npm, pnpm, yarn and conflicting-lockfile evaluators. */
module JavaScriptChecks {
  import opened Text
  import opened Lists
  import opened Workspaces
  import opened Evidence
  import opened Reports

  const PACKAGE_JSON := "package.json"

  function LockfileNames(manager: Manager): seq<string> {
    match manager
    case Npm => ["package-lock.json", "npm-shrinkwrap.json"]
    case Pnpm => ["pnpm-lock.yaml"]
    case Yarn => ["yarn.lock"]
    case _ => []
  }

  const LOCKFILE_MANAGERS: set<Manager> := {Npm, Pnpm, Yarn}

  predicate HasLockfile(ctx: Context, root: string, manager: Manager) {
    exists k :: 0 <= k < |LockfileNames(manager)| && ctx.Holds(JoinRoot(root, LockfileNames(manager)[k]))
  }

  /** The package managers a lockfile beside the project speaks for. */
  function LockManagers(ctx: Context, root: string): set<Manager> {
    set manager | manager in LOCKFILE_MANAGERS && HasLockfile(ctx, root, manager)
  }

  method JavaScriptLockManagers(ctx: Context, root: string) returns (managers: set<Manager>)
    ensures managers == LockManagers(ctx, root)
  {
    managers := {};
    var left := LOCKFILE_MANAGERS;
    while left != {}
      invariant left <= LOCKFILE_MANAGERS
      invariant managers == set manager | manager in LOCKFILE_MANAGERS - left && HasLockfile(ctx, root, manager)
    {
      var manager :| manager in left;
      var names := LockfileNames(manager);
      ghost var before := managers;
      for n := 0 to |names|
        invariant managers == before + if exists k :: 0 <= k < n && ctx.Holds(JoinRoot(root, names[k])) then {manager} else {}
      {
        if ctx.Holds(JoinRoot(root, names[n])) {
          managers := managers + {manager};
        }
      }
      left := left - {manager};
    }
  }

  // ----- projects: manifests grouped by the root that owns them -----

  ghost function OwnerRoot(m: Matcher, ctx: Context, manifest: JsManifest): string {
    Owner(m, manifest.root, Elements(ctx.spaces))
  }

  method FindOwnerRoot(m: Matcher, ctx: Context, manifest: JsManifest) returns (root: string)
    ensures root == OwnerRoot(m, ctx, manifest)
  {
    root := WorkspaceOwner(m, manifest.root, ctx.spaces);
  }

  ghost function Roots(m: Matcher, ctx: Context, manifests: seq<JsManifest>): set<string> {
    set manifest | manifest in manifests :: OwnerRoot(m, ctx, manifest)
  }

  ghost function ProjectRoots(m: Matcher, ctx: Context): set<string> { Roots(m, ctx, ctx.javascript) }

  ghost function FirstMember(m: Matcher, ctx: Context, manifests: seq<JsManifest>, root: string): (path: string)
    requires root in Roots(m, ctx, manifests)
  {
    if OwnerRoot(m, ctx, manifests[0]) == root then manifests[0].path
    else
      assert manifests == [manifests[0]] + manifests[1..];
      FirstMember(m, ctx, manifests[1..], root)
  }

  /** The owning root's own package.json, or else the first manifest of the group. */
  ghost function ManifestOf(m: Matcher, ctx: Context, manifests: seq<JsManifest>, root: string): string
    requires root in Roots(m, ctx, manifests)
  {
    if ctx.Holds(JoinRoot(root, PACKAGE_JSON)) then JoinRoot(root, PACKAGE_JSON)
    else FirstMember(m, ctx, manifests, root)
  }

  lemma {:induction false} FirstMemberExtends(m: Matcher, ctx: Context, manifests: seq<JsManifest>, more: JsManifest,
                                        root: string)
    requires root in Roots(m, ctx, manifests + [more])
    ensures FirstMember(m, ctx, manifests + [more], root) ==
            if root in Roots(m, ctx, manifests) then FirstMember(m, ctx, manifests, root) else more.path
  {
    if manifests != [] && OwnerRoot(m, ctx, manifests[0]) != root {
      assert (manifests + [more])[1..] == manifests[1..] + [more];
      assert forall x :: x in manifests <==> x == manifests[0] || x in manifests[1..];
      assert root in Roots(m, ctx, manifests[1..] + [more]) by {
        assert forall x :: x in manifests + [more] <==> x == manifests[0] || x in manifests[1..] + [more];
      }
      FirstMemberExtends(m, ctx, manifests[1..], more, root);
    }
  }

  ghost predicate HasDeps(m: Matcher, ctx: Context, manifests: seq<JsManifest>, root: string) {
    exists x :: x in manifests && OwnerRoot(m, ctx, x) == root && x.hasDeps
  }

  ghost predicate HasInvalid(m: Matcher, ctx: Context, manifests: seq<JsManifest>, root: string) {
    exists x :: x in manifests && OwnerRoot(m, ctx, x) == root && x.managerInvalid
  }

  ghost function DeclaredManagers(m: Matcher, ctx: Context, manifests: seq<JsManifest>, root: string): set<Manager> {
    set x | x in manifests && OwnerRoot(m, ctx, x) == root && x.manager != NoManager :: x.manager
  }

  ghost function SpaceManagers(spaces: seq<Workspace>, root: string): set<Manager> {
    set w | w in spaces && w.root == root && w.manager != NoManager :: w.manager
  }

  /** All package-manager evidence for a project: its members' declarations, workspace files at
      the root, and lockfiles at the root. */
  ghost function Managers(m: Matcher, ctx: Context, root: string): set<Manager> {
    DeclaredManagers(m, ctx, ctx.javascript, root) + SpaceManagers(ctx.spaces, root) + LockManagers(ctx, root)
  }

  // ----- the missing-lockfile evaluators -----

  datatype Verdict = NotSelected | Ambiguous | Locked | Unlocked

  ghost function VerdictAt(m: Matcher, ctx: Context, manager: Manager, root: string): Verdict {
    if !HasDeps(m, ctx, ctx.javascript, root) || manager !in Managers(m, ctx, root) then NotSelected
    else if HasInvalid(m, ctx, ctx.javascript, root) || Managers(m, ctx, root) != {manager} then Ambiguous
    else if HasLockfile(ctx, root, manager) then Locked
    else Unlocked
  }

  function RunFor(check: string, root: string, verdict: Verdict): seq<CheckRun> {
    match verdict
    case NotSelected => []
    case Ambiguous => [CheckRun(check, ProjectSubject(root), Skipped(AmbiguousPackageManager))]
    case _ => [CheckRun(check, ProjectSubject(root), Completed)]
  }

  ghost function RunsAt(m: Matcher, ctx: Context, check: string, manager: Manager): string -> seq<CheckRun> {
    root => RunFor(check, root, VerdictAt(m, ctx, manager, root))
  }

  ghost function FindingAt(m: Matcher, ctx: Context, check: string, manager: Manager): string -> seq<Finding> {
    root =>
      if root in ProjectRoots(m, ctx) && VerdictAt(m, ctx, manager, root) == Unlocked then
        [Finding(check, ProjectSubject(root), [ManifestOf(m, ctx, ctx.javascript, root)],
                 MissingLockfile(manager, LockfileNames(manager)))]
      else []
  }

  ghost function LockfileRuns(m: Matcher, ctx: Context, check: string, manager: Manager): seq<CheckRun> {
    FailedRuns(ctx, check, Js)
    + (if manager == Pnpm then FailedRuns(ctx, check, JsPnpmWorkspace) else [])
    + FlatMap(RunsAt(m, ctx, check, manager), Sorted(ProjectRoots(m, ctx)))
  }

  ghost function LockfileFindings(m: Matcher, ctx: Context, check: string, manager: Manager): seq<Finding> {
    FlatMap(FindingAt(m, ctx, check, manager), Sorted(ProjectRoots(m, ctx)))
  }

  datatype Project = Project(manifest: string, hasDeps: bool, managers: set<Manager>, invalid: bool)

  ghost function Grouped(m: Matcher, ctx: Context, manifests: seq<JsManifest>, root: string): Project
    requires root in Roots(m, ctx, manifests)
  {
    Project(ManifestOf(m, ctx, manifests, root), HasDeps(m, ctx, manifests, root),
            DeclaredManagers(m, ctx, manifests, root), HasInvalid(m, ctx, manifests, root))
  }

  lemma GroupedStep(m: Matcher, ctx: Context, manifests: seq<JsManifest>, n: nat, root: string)
    requires n < |manifests|
    ensures Roots(m, ctx, manifests[..n + 1]) == Roots(m, ctx, manifests[..n]) + {OwnerRoot(m, ctx, manifests[n])}
    ensures root in Roots(m, ctx, manifests[..n + 1]) ==>
              var x := manifests[n];
              var before := if root in Roots(m, ctx, manifests[..n]) then Grouped(m, ctx, manifests[..n], root)
                            else Project(if ctx.Holds(JoinRoot(root, PACKAGE_JSON)) then JoinRoot(root, PACKAGE_JSON)
                                         else x.path, false, {}, false);
              Grouped(m, ctx, manifests[..n + 1], root) ==
              if OwnerRoot(m, ctx, x) == root then
                before.(hasDeps := before.hasDeps || x.hasDeps, invalid := before.invalid || x.managerInvalid,
                        managers := before.managers + if x.manager != NoManager then {x.manager} else {})
              else before
  {
    hide OwnerRoot;
    var x, shorter, longer := manifests[n], manifests[..n], manifests[..n + 1];
    assert longer == shorter + [x];
    MembersStep(m, ctx, shorter, x, root);
    if root in Roots(m, ctx, longer) {
      FirstMemberExtends(m, ctx, shorter, x, root);
      hide Roots, HasDeps, HasInvalid, DeclaredManagers, FirstMember;
    }
  }

  lemma MembersStep(m: Matcher, ctx: Context, shorter: seq<JsManifest>, x: JsManifest, root: string)
    ensures var longer := shorter + [x];
            && Roots(m, ctx, longer) == Roots(m, ctx, shorter) + {OwnerRoot(m, ctx, x)}
            && DeclaredManagers(m, ctx, longer, root) == DeclaredManagers(m, ctx, shorter, root)
                 + (if OwnerRoot(m, ctx, x) == root && x.manager != NoManager then {x.manager} else {})
            && (HasDeps(m, ctx, longer, root) <==> HasDeps(m, ctx, shorter, root) || (OwnerRoot(m, ctx, x) == root && x.hasDeps))
            && (HasInvalid(m, ctx, longer, root) <==>
                  HasInvalid(m, ctx, shorter, root) || (OwnerRoot(m, ctx, x) == root && x.managerInvalid))
            && (root !in Roots(m, ctx, shorter) ==>
                  !HasDeps(m, ctx, shorter, root) && !HasInvalid(m, ctx, shorter, root)
                  && DeclaredManagers(m, ctx, shorter, root) == {})
  {
    hide OwnerRoot;
    assert forall y :: y in shorter + [x] <==> y in shorter || y == x;
  }

  ghost predicate GroupsUpTo(m: Matcher, ctx: Context, n: nat, projects: map<string, Project>)
    requires n <= |ctx.javascript|
  {
    && projects.Keys == Roots(m, ctx, ctx.javascript[..n])
    && forall r :: r in projects ==> projects[r] == Grouped(m, ctx, ctx.javascript[..n], r)
  }

  method AddManifest(m: Matcher, ctx: Context, projects: map<string, Project>, n: nat) returns (r: map<string, Project>)
    requires n < |ctx.javascript| && GroupsUpTo(m, ctx, n, projects)
    ensures GroupsUpTo(m, ctx, n + 1, r)
  {
    hide OwnerRoot, Grouped;
    var manifest := ctx.javascript[n];
    var ownerRoot := FindOwnerRoot(m, ctx, manifest);
    var ownerManifest := manifest.path;
    if ctx.Holds(JoinRoot(ownerRoot, PACKAGE_JSON)) {
      ownerManifest := JoinRoot(ownerRoot, PACKAGE_JSON);
    }
    var current := if ownerRoot in projects then projects[ownerRoot] else Project(ownerManifest, false, {}, false);
    current := current.(hasDeps := current.hasDeps || manifest.hasDeps, invalid := current.invalid || manifest.managerInvalid);
    if manifest.manager != NoManager {
      current := current.(managers := current.managers + {manifest.manager});
    }
    r := projects[ownerRoot := current];
    GroupedStep(m, ctx, ctx.javascript, n, ownerRoot);
    forall root | root in r ensures r[root] == Grouped(m, ctx, ctx.javascript[..n + 1], root) {
      GroupedStep(m, ctx, ctx.javascript, n, root);
    }
  }

  method GroupManifests(m: Matcher, ctx: Context) returns (projects: map<string, Project>)
    ensures GroupsUpTo(m, ctx, |ctx.javascript|, projects)
  {
    projects := map[];
    for n := 0 to |ctx.javascript|
      invariant GroupsUpTo(m, ctx, n, projects)
    {
      projects := AddManifest(m, ctx, projects, n);
    }
  }

  ghost predicate GroupedWith(m: Matcher, ctx: Context, spaces: seq<Workspace>, projects: map<string, Project>) {
    && projects.Keys == ProjectRoots(m, ctx)
    && forall r :: r in projects ==>
         projects[r] == Grouped(m, ctx, ctx.javascript, r).(managers :=
           DeclaredManagers(m, ctx, ctx.javascript, r) + SpaceManagers(spaces, r))
  }

  lemma NoSpaceManagers(root: string)
    ensures SpaceManagers([], root) == {}
  {
  }

  lemma SpaceManagersStep(spaces: seq<Workspace>, n: nat, root: string)
    requires n < |spaces|
    ensures SpaceManagers(spaces[..n + 1], root) == SpaceManagers(spaces[..n], root)
              + if spaces[n].root == root && spaces[n].manager != NoManager then {spaces[n].manager} else {}
  {
    assert forall w :: w in spaces[..n + 1] <==> w in spaces[..n] || w == spaces[n];
  }

  /** Groups the manifests by owning root, then adds what the workspace files at each root say. */
  method GroupProjects(m: Matcher, ctx: Context) returns (projects: map<string, Project>)
    ensures GroupedWith(m, ctx, ctx.spaces, projects)
  {
    hide SpaceManagers, DeclaredManagers, OwnerRoot, HasDeps, HasInvalid, ManifestOf;
    projects := GroupManifests(m, ctx);
    forall r { NoSpaceManagers(r); }
    assert ctx.javascript[..|ctx.javascript|] == ctx.javascript;
    for n := 0 to |ctx.spaces|
      invariant GroupedWith(m, ctx, ctx.spaces[..n], projects)
    {
      var workspace := ctx.spaces[n];
      ghost var before := projects;
      if workspace.manager != NoManager && workspace.root in projects {
        var project := projects[workspace.root];
        projects := projects[workspace.root := project.(managers := project.managers + {workspace.manager})];
      }
      forall r | r in projects
        ensures projects[r] == Grouped(m, ctx, ctx.javascript, r).(managers :=
                  DeclaredManagers(m, ctx, ctx.javascript, r) + SpaceManagers(ctx.spaces[..n + 1], r))
      {
        SpaceManagersStep(ctx.spaces, n, r);
      }
    }
    assert ctx.spaces[..|ctx.spaces|] == ctx.spaces;
  }

  method JudgeProject(m: Matcher, ctx: Context, check: string, manager: Manager, root: string, project: Project)
    returns (runs: seq<CheckRun>, findings: seq<Finding>)
    requires root in ProjectRoots(m, ctx)
    requires project == Grouped(m, ctx, ctx.javascript, root).(managers :=
               DeclaredManagers(m, ctx, ctx.javascript, root) + SpaceManagers(ctx.spaces, root))
    ensures runs == RunsAt(m, ctx, check, manager)(root) && findings == FindingAt(m, ctx, check, manager)(root)
  {
    hide ManifestOf, HasDeps, HasInvalid, DeclaredManagers, SpaceManagers, LockManagers, Roots;
    if !project.hasDeps {
      return [], [];
    }
    var lockManagers := JavaScriptLockManagers(ctx, root);
    var managers := project.managers + lockManagers;
    assert managers == Managers(m, ctx, root);
    if manager !in managers {
      return [], [];
    }
    Singleton(managers, manager);
    if project.invalid || |managers| != 1 {
      return [CheckRun(check, ProjectSubject(root), Skipped(AmbiguousPackageManager))], [];
    }
    var accepted := LockfileNames(manager);
    var missing := true;
    for k := 0 to |accepted|
      invariant missing && forall j :: 0 <= j < k ==> !ctx.Holds(JoinRoot(root, accepted[j]))
    {
      if ctx.Holds(JoinRoot(root, accepted[k])) {
        missing := false;
        break;
      }
    }
    runs := [CheckRun(check, ProjectSubject(root), Completed)];
    findings := [];
    if missing {
      findings := [Finding(check, ProjectSubject(root), [project.manifest], MissingLockfile(manager, accepted))];
    }
  }

  method EvaluateJavaScriptLockfile(m: Matcher, ctx: Context, check: string, manager: Manager)
    returns (runs: seq<CheckRun>, findings: seq<Finding>)
    ensures runs == LockfileRuns(m, ctx, check, manager)
    ensures findings == LockfileFindings(m, ctx, check, manager)
  {
    hide VerdictAt, Grouped, Managers, Owner, OwnerRoot, DeclaredManagers, SpaceManagers, RunsAt, FindingAt, Increasing, Sorted,
         FailedRuns, FlatMap;
    var projects := GroupProjects(m, ctx);
    var keys := SortedKeys(projects.Keys);
    assert keys[..0] == [];
    FlatMapNil(RunsAt(m, ctx, check, manager));
    FlatMapNil(FindingAt(m, ctx, check, manager));
    runs := FailedRunsForDetector(ctx, check, Js);
    if manager == Pnpm {
      var more := FailedRunsForDetector(ctx, check, JsPnpmWorkspace);
      runs := runs + more;
    }
    findings := [];
    ghost var failures := runs;
    for n := 0 to |keys|
      invariant runs == failures + FlatMap(RunsAt(m, ctx, check, manager), keys[..n])
      invariant findings == FlatMap(FindingAt(m, ctx, check, manager), keys[..n])
    {
      FlatMapStep(RunsAt(m, ctx, check, manager), keys, n);
      FlatMapStep(FindingAt(m, ctx, check, manager), keys, n);
      assert keys[n] in projects.Keys;
      var moreRuns, moreFindings := JudgeProject(m, ctx, check, manager, keys[n], projects[keys[n]]);
      runs := runs + moreRuns;
      findings := findings + moreFindings;
    }
    assert keys[..|keys|] == keys;
  }

  lemma Singleton<T>(s: set<T>, x: T)
    requires x in s
    ensures |s| == 1 <==> s == {x}
  {
    if |s| == 1 {
      assert |s - {x}| == 0;
      assert s == {x};
    }
  }

  // ----- the conflicting-lockfiles evaluator -----

  ghost function LockfilesAt(ctx: Context, root: string): set<string> {
    set manager, k | manager in LOCKFILE_MANAGERS && 0 <= k < |LockfileNames(manager)|
      && ctx.Holds(JoinRoot(root, LockfileNames(manager)[k])) :: JoinRoot(root, LockfileNames(manager)[k])
  }

  ghost function ConflictAt(m: Matcher, ctx: Context, check: string): string -> seq<Finding> {
    root =>
      if root in ProjectRoots(m, ctx) && |LockManagers(ctx, root)| >= 2 then
        var lockfiles := Sorted(LockfilesAt(ctx, root));
        [Finding(check, ProjectSubject(root), [ManifestOf(m, ctx, ctx.javascript, root)] + lockfiles,
                 ConflictingLockfiles(LockManagers(ctx, root), lockfiles))]
      else []
  }

  ghost function ConflictRuns(m: Matcher, ctx: Context, check: string): seq<CheckRun> {
    FailedRuns(ctx, check, Js) + FlatMap(CompletedRun(check), Sorted(ProjectRoots(m, ctx)))
  }

  ghost function ConflictFindings(m: Matcher, ctx: Context, check: string): seq<Finding> {
    FlatMap(ConflictAt(m, ctx, check), Sorted(ProjectRoots(m, ctx)))
  }

  lemma RootsStep(m: Matcher, ctx: Context, n: nat, root: string)
    requires n < |ctx.javascript|
    ensures var before, x := ctx.javascript[..n], ctx.javascript[n];
            && Roots(m, ctx, ctx.javascript[..n + 1]) == Roots(m, ctx, before) + {OwnerRoot(m, ctx, x)}
            && (root in Roots(m, ctx, ctx.javascript[..n + 1]) ==>
                  ManifestOf(m, ctx, ctx.javascript[..n + 1], root) ==
                  if root in Roots(m, ctx, before) then ManifestOf(m, ctx, before, root)
                  else if ctx.Holds(JoinRoot(root, PACKAGE_JSON)) then JoinRoot(root, PACKAGE_JSON) else x.path)
  {
    GroupedStep(m, ctx, ctx.javascript, n, root);
  }

  method OwnerManifests(m: Matcher, ctx: Context) returns (manifests: map<string, string>)
    requires ctx.Keyed()
    ensures manifests.Keys == ProjectRoots(m, ctx)
    ensures forall r :: r in manifests ==> manifests[r] == ManifestOf(m, ctx, ctx.javascript, r)
  {
    hide OwnerRoot, ManifestOf;
    manifests := map[];
    for n := 0 to |ctx.javascript|
      invariant manifests.Keys == Roots(m, ctx, ctx.javascript[..n])
      invariant forall r :: r in manifests ==> manifests[r] == ManifestOf(m, ctx, ctx.javascript[..n], r)
    {
      var manifest := ctx.javascript[n];
      var ownerRoot := FindOwnerRoot(m, ctx, manifest);
      RootsStep(m, ctx, n, ownerRoot);
      var current := if ownerRoot in manifests then manifests[ownerRoot] else manifest.path;
      if ctx.PathAt(JoinRoot(ownerRoot, PACKAGE_JSON)) != "" {
        OwnManifestWins(m, ctx, ctx.javascript[..n + 1], ownerRoot);
        current := JoinRoot(ownerRoot, PACKAGE_JSON);
      }
      manifests := manifests[ownerRoot := current];
      forall r | r in manifests ensures manifests[r] == ManifestOf(m, ctx, ctx.javascript[..n + 1], r) {
        RootsStep(m, ctx, n, r);
      }
    }
    assert ctx.javascript[..|ctx.javascript|] == ctx.javascript;
  }

  lemma OwnManifestWins(m: Matcher, ctx: Context, manifests: seq<JsManifest>, root: string)
    requires root in Roots(m, ctx, manifests) && ctx.Holds(JoinRoot(root, PACKAGE_JSON))
    ensures ManifestOf(m, ctx, manifests, root) == JoinRoot(root, PACKAGE_JSON)
  {
  }

  method ConflictingFiles(ctx: Context, root: string, managers: set<Manager>) returns (lockfiles: seq<string>)
    requires managers == LockManagers(ctx, root)
    ensures lockfiles == Sorted(LockfilesAt(ctx, root))
  {
    hide JoinRoot, Sorted, Increasing;
    var found: set<string> := {};
    var left := managers;
    while left != {}
      invariant left <= managers
      invariant found == set manager, k | manager in managers - left && 0 <= k < |LockfileNames(manager)|
        && ctx.Holds(JoinRoot(root, LockfileNames(manager)[k])) :: JoinRoot(root, LockfileNames(manager)[k])
    {
      var manager :| manager in left;
      var names := LockfileNames(manager);
      ghost var before := found;
      for n := 0 to |names|
        invariant found == before + set k | 0 <= k < n && ctx.Holds(JoinRoot(root, names[k])) :: JoinRoot(root, names[k])
      {
        var location := JoinRoot(root, names[n]);
        if ctx.Holds(location) {
          found := found + {location};
        }
      }
      left := left - {manager};
    }
    assert found == LockfilesAt(ctx, root);
    lockfiles := SortedKeys(found);
  }

  method JudgeConflict(m: Matcher, ctx: Context, check: string, root: string, manifest: string)
    returns (findings: seq<Finding>)
    requires root in ProjectRoots(m, ctx) && manifest == ManifestOf(m, ctx, ctx.javascript, root)
    ensures findings == ConflictAt(m, ctx, check)(root)
  {
    hide ManifestOf, OwnerRoot, Sorted, Increasing, LockManagers, LockfilesAt, Roots;
    var managers := JavaScriptLockManagers(ctx, root);
    if |managers| < 2 {
      return [];
    }
    var lockfiles := ConflictingFiles(ctx, root, managers);
    return [Finding(check, ProjectSubject(root), [manifest] + lockfiles, ConflictingLockfiles(managers, lockfiles))];
  }

  method EvaluateConflictingJavaScriptLockfiles(m: Matcher, ctx: Context, check: string)
    returns (runs: seq<CheckRun>, findings: seq<Finding>)
    requires ctx.Keyed()
    ensures runs == ConflictRuns(m, ctx, check) && findings == ConflictFindings(m, ctx, check)
  {
    hide ManifestOf, OwnerRoot, Sorted, Increasing, ConflictAt, FailedRuns;
    var manifests := OwnerManifests(m, ctx);
    var keys := SortedKeys(manifests.Keys);
    runs := FailedRunsForDetector(ctx, check, Js);
    findings := [];
    ghost var failures := runs;
    for n := 0 to |keys|
      invariant runs == failures + FlatMap(CompletedRun(check), keys[..n])
      invariant findings == FlatMap(ConflictAt(m, ctx, check), keys[..n])
    {
      FlatMapStep(CompletedRun(check), keys, n);
      FlatMapStep(ConflictAt(m, ctx, check), keys, n);
      var root := keys[n];
      assert root in manifests.Keys;
      runs := runs + [CheckRun(check, ProjectSubject(root), Completed)];
      var conflict := JudgeConflict(m, ctx, check, root, manifests[root]);
      findings := findings + conflict;
    }
    assert keys[..|keys|] == keys;
  }

  // ----- what the evaluators say about each other -----

  /** Roots come from `Dir`, which never yields "."; so distinct roots have distinct subjects. */
  ghost predicate RootsClean(ctx: Context) {
    && (forall x :: x in ctx.javascript ==> x.root != ".")
    && (forall w :: w in ctx.spaces ==> w.root != ".")
  }

  lemma BuiltRootsClean(sources: seq<Source>, inputs: seq<PolicyInput>, discovered: set<string>)
    ensures RootsClean(ContextOf(sources, inputs, discovered))
  {
    var manifests := FlatMap(JsOf, sources);
    var spaces := FlatMap(SpaceOf, sources) + FlatMap(DeclaredSpace, manifests);
    SortByMembers(JsPath, manifests);
    SortByMembers(SpaceRoot, spaces);
    forall x | x in manifests ensures x.root != "." { FlatMapMember(JsOf, sources, x); }
    forall w | w in spaces ensures w.root != "." {
      FlatMapMember(SpaceOf, sources, w);
      FlatMapMember(DeclaredSpace, manifests, w);
    }
  }

  lemma ProjectRootsClean(m: Matcher, ctx: Context, root: string)
    requires RootsClean(ctx) && root in ProjectRoots(m, ctx)
    ensures root != "."
  {
  }

  lemma SubjectDeterminesRoot(a: string, b: string)
    requires a != "." && b != "." && ProjectSubject(a) == ProjectSubject(b)
    ensures a == b
  {
  }

  lemma UnfailedRunAt(m: Matcher, ctx: Context, check: string, manager: Manager, root: string, run: CheckRun)
    requires RootsClean(ctx) && root in ProjectRoots(m, ctx)
    requires run.subject == ProjectSubject(root) && !run.status.Failed?
    ensures run in LockfileRuns(m, ctx, check, manager) <==> run in RunsAt(m, ctx, check, manager)(root)
  {
    hide VerdictAt, OwnerRoot, Increasing, Sorted, RunsAt, FailedRuns, FlatMap, Roots;
    var keys := Sorted(ProjectRoots(m, ctx));
    FailedRunsAreFailed(ctx, check, Js);
    FailedRunsAreFailed(ctx, check, JsPnpmWorkspace);
    FlatMapMember(RunsAt(m, ctx, check, manager), keys, run);
    if r :| r in keys && run in RunsAt(m, ctx, check, manager)(r) {
      ProjectRootsClean(m, ctx, r);
      ProjectRootsClean(m, ctx, root);
      RunSubject(m, ctx, check, manager, r, run);
      SubjectDeterminesRoot(r, root);
    }
  }

  lemma RunSubject(m: Matcher, ctx: Context, check: string, manager: Manager, root: string, run: CheckRun)
    requires run in RunsAt(m, ctx, check, manager)(root)
    ensures run.subject == ProjectSubject(root)
  {
    hide VerdictAt;
  }

  /** A project completes exactly when it has dependencies and all evidence is for this one manager. */
  lemma CompletedIff(m: Matcher, ctx: Context, check: string, manager: Manager, root: string)
    requires RootsClean(ctx) && root in ProjectRoots(m, ctx)
    ensures CheckRun(check, ProjectSubject(root), Completed) in LockfileRuns(m, ctx, check, manager) <==>
            HasDeps(m, ctx, ctx.javascript, root) && !HasInvalid(m, ctx, ctx.javascript, root)
            && Managers(m, ctx, root) == {manager}
  {
    hide LockfileRuns, OwnerRoot, HasDeps, HasInvalid, Managers, HasLockfile, ProjectRoots;
    var run := CheckRun(check, ProjectSubject(root), Completed);
    UnfailedRunAt(m, ctx, check, manager, root, run);
    var verdict := VerdictAt(m, ctx, manager, root);
    assert run in RunFor(check, root, verdict) <==> verdict == Locked || verdict == Unlocked;
  }

  /** No project completes under two of the npm, pnpm and yarn checks. */
  lemma AtMostOneManagerCompletes(m: Matcher, ctx: Context, check: string, manager: Manager,
                                  other: string, otherManager: Manager, root: string)
    requires RootsClean(ctx) && root in ProjectRoots(m, ctx) && manager != otherManager
    requires CheckRun(check, ProjectSubject(root), Completed) in LockfileRuns(m, ctx, check, manager)
    ensures CheckRun(other, ProjectSubject(root), Completed) !in LockfileRuns(m, ctx, other, otherManager)
  {
    hide LockfileRuns, HasDeps, HasInvalid, Managers, ProjectRoots;
    CompletedIff(m, ctx, check, manager, root);
    CompletedIff(m, ctx, other, otherManager, root);
  }

  lemma FindingComesFromRoot(m: Matcher, ctx: Context, check: string, manager: Manager, finding: Finding)
    returns (root: string)
    requires finding in LockfileFindings(m, ctx, check, manager)
    ensures root in ProjectRoots(m, ctx) && finding.subject == ProjectSubject(root)
    ensures VerdictAt(m, ctx, manager, root) == Unlocked
  {
    hide ManifestOf, OwnerRoot, VerdictAt, Increasing, Roots;
    var keys := Sorted(ProjectRoots(m, ctx));
    FlatMapMember(FindingAt(m, ctx, check, manager), keys, finding);
    root :| root in keys && finding in FindingAt(m, ctx, check, manager)(root);
  }

  /** A project is reported exactly when it has dependencies, all evidence is for this one manager, and the
      manager's lockfile is not there. */
  lemma MissingIff(m: Matcher, ctx: Context, check: string, manager: Manager, root: string)
    requires RootsClean(ctx) && root in ProjectRoots(m, ctx)
    ensures (exists f :: f in LockfileFindings(m, ctx, check, manager) && f.subject == ProjectSubject(root)) <==>
            HasDeps(m, ctx, ctx.javascript, root) && !HasInvalid(m, ctx, ctx.javascript, root)
            && Managers(m, ctx, root) == {manager} && !HasLockfile(ctx, root, manager)
  {
    hide LockfileFindings, HasDeps, HasInvalid, Managers, HasLockfile, ProjectRoots, ManifestOf;
    if f :| f in LockfileFindings(m, ctx, check, manager) && f.subject == ProjectSubject(root) {
      var other := FindingComesFromRoot(m, ctx, check, manager, f);
      ProjectRootsClean(m, ctx, other);
      ProjectRootsClean(m, ctx, root);
      SubjectDeterminesRoot(other, root);
    }
    if VerdictAt(m, ctx, manager, root) == Unlocked {
      var f := UnlockedIsReported(m, ctx, check, manager, root);
    }
  }

  lemma UnlockedIsReported(m: Matcher, ctx: Context, check: string, manager: Manager, root: string) returns (f: Finding)
    requires root in ProjectRoots(m, ctx) && VerdictAt(m, ctx, manager, root) == Unlocked
    ensures f in LockfileFindings(m, ctx, check, manager) && f.subject == ProjectSubject(root)
  {
    hide ManifestOf, OwnerRoot, VerdictAt, Increasing, Roots;
    f := FindingAt(m, ctx, check, manager)(root)[0];
    FlatMapMember(FindingAt(m, ctx, check, manager), Sorted(ProjectRoots(m, ctx)), f);
  }

  /** A conflict is reported exactly where lockfiles of two managers are. */
  lemma ConflictIff(m: Matcher, ctx: Context, check: string, root: string)
    requires RootsClean(ctx) && root in ProjectRoots(m, ctx)
    ensures (exists f :: f in ConflictFindings(m, ctx, check) && f.subject == ProjectSubject(root)) <==>
            |LockManagers(ctx, root)| >= 2
  {
    hide ConflictFindings, LockManagers, ProjectRoots, ManifestOf, LockfilesAt;
    if f :| f in ConflictFindings(m, ctx, check) && f.subject == ProjectSubject(root) {
      var other := ConflictComesFromRoot(m, ctx, check, f);
      ProjectRootsClean(m, ctx, other);
      ProjectRootsClean(m, ctx, root);
      SubjectDeterminesRoot(other, root);
    }
    if |LockManagers(ctx, root)| >= 2 {
      var f := ConflictIsReported(m, ctx, check, root);
    }
  }

  lemma ConflictIsReported(m: Matcher, ctx: Context, check: string, root: string) returns (f: Finding)
    requires root in ProjectRoots(m, ctx) && |LockManagers(ctx, root)| >= 2
    ensures f in ConflictFindings(m, ctx, check) && f.subject == ProjectSubject(root)
  {
    hide ManifestOf, OwnerRoot, LockfilesAt, LockManagers, Increasing, Roots;
    f := ConflictAt(m, ctx, check)(root)[0];
    FlatMapMember(ConflictAt(m, ctx, check), Sorted(ProjectRoots(m, ctx)), f);
  }

  lemma UnlockedMeansNoLockfile(m: Matcher, ctx: Context, manager: Manager, root: string)
    requires manager in LOCKFILE_MANAGERS && VerdictAt(m, ctx, manager, root) == Unlocked
    ensures LockManagers(ctx, root) == {}
  {
    assert LockManagers(ctx, root) <= Managers(m, ctx, root);
  }

  /** A missing-lockfile finding means there is no lockfile of any JavaScript manager at the reported root. */
  lemma MissingMeansNoLockfileAtAll(m: Matcher, ctx: Context, check: string, manager: Manager, finding: Finding, root: string)
    requires RootsClean(ctx) && manager in LOCKFILE_MANAGERS && finding in LockfileFindings(m, ctx, check, manager)
    requires root in ProjectRoots(m, ctx) && finding.subject == ProjectSubject(root)
    ensures LockManagers(ctx, root) == {}
  {
    hide LockfileFindings, VerdictAt, ProjectRoots, LockManagers;
    var reported := FindingComesFromRoot(m, ctx, check, manager, finding);
    ProjectRootsClean(m, ctx, reported);
    ProjectRootsClean(m, ctx, root);
    SubjectDeterminesRoot(reported, root);
    UnlockedMeansNoLockfile(m, ctx, manager, root);
  }

  /** Missing-lockfile and conflicting-lockfiles findings never coexist for one project. */
  lemma MissingExcludesConflict(m: Matcher, ctx: Context, check: string, manager: Manager, finding: Finding,
                                conflictCheck: string, conflict: Finding)
    requires RootsClean(ctx) && manager in LOCKFILE_MANAGERS
    requires finding in LockfileFindings(m, ctx, check, manager)
    requires conflict in ConflictFindings(m, ctx, conflictCheck)
    ensures finding.subject != conflict.subject
  {
    hide LockfileFindings, ConflictFindings, VerdictAt, ProjectRoots;
    var root := FindingComesFromRoot(m, ctx, check, manager, finding);
    MissingMeansNoLockfileAtAll(m, ctx, check, manager, finding, root);
    var other := ConflictComesFromRoot(m, ctx, conflictCheck, conflict);
    ProjectRootsClean(m, ctx, other);
    ProjectRootsClean(m, ctx, root);
    if finding.subject == conflict.subject {
      SubjectDeterminesRoot(other, root);
    }
  }

  lemma ConflictComesFromRoot(m: Matcher, ctx: Context, check: string, conflict: Finding) returns (root: string)
    requires conflict in ConflictFindings(m, ctx, check)
    ensures root in ProjectRoots(m, ctx) && conflict.subject == ProjectSubject(root)
    ensures |LockManagers(ctx, root)| >= 2
  {
    hide ManifestOf, OwnerRoot, LockfilesAt, LockManagers, Increasing;
    var keys := Sorted(ProjectRoots(m, ctx));
    FlatMapMember(ConflictAt(m, ctx, check), keys, conflict);
    root :| root in keys && conflict in ConflictAt(m, ctx, check)(root);
  }

  /** Where lockfiles conflict, the check of every family involved reports the project as ambiguous. */
  lemma ConflictIsAmbiguousForEveryFamily(m: Matcher, ctx: Context, check: string, manager: Manager, root: string)
    requires root in ProjectRoots(m, ctx) && HasDeps(m, ctx, ctx.javascript, root)
    requires |LockManagers(ctx, root)| >= 2 && manager in LockManagers(ctx, root)
    ensures CheckRun(check, ProjectSubject(root), Skipped(AmbiguousPackageManager)) in LockfileRuns(m, ctx, check, manager)
  {
    var run := CheckRun(check, ProjectSubject(root), Skipped(AmbiguousPackageManager));
    hide HasDeps, HasInvalid, LockManagers, OwnerRoot;
    Singleton(LockManagers(ctx, root), manager);
    assert LockManagers(ctx, root) <= Managers(m, ctx, root);
    assert VerdictAt(m, ctx, manager, root) == Ambiguous;
    FlatMapMember(RunsAt(m, ctx, check, manager), Sorted(ProjectRoots(m, ctx)), run);
    assert run in RunsAt(m, ctx, check, manager)(root);
  }
}
