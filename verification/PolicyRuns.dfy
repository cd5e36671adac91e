/** Exactly which runs each check reports, in terms of the scanned files. */
module PolicyRuns {
  import opened Text
  import opened Lists
  import opened Workspaces
  import opened Evidence
  import opened Reports
  import opened JavaScriptChecks
  import opened TomlChecks
  import opened Exclusions
  import opened PolicyOutcomes

  // ----- failed runs -----

  /** The detectors whose unreadable files fail a check. */
  function Watched(evaluator: Evaluator): set<Detector> {
    match evaluator
    case LockfileMissing(manager) => if manager == Pnpm then {Js, JsPnpmWorkspace} else {Js}
    case LockfilesConflict => {Js}
    case UvLockMissing => {PythonPyproject}
    case CargoLockMissing => {RustCargo}
  }

  /** The run reports an unreadable file: its directory and its error. */
  ghost predicate Failing(sources: seq<Source>, inputs: seq<PolicyInput>, detector: Detector, run: CheckRun) {
    run.status.Failed? &&
    (|| (exists s :: s in sources && s.detector == detector && run.subject == Subject(Dir(s.path)) && Unreadable(s, run.status.detail))
     || (exists i :: i in inputs && detector == PythonPyproject && run.subject == Subject(Dir(i.path)) && i.uv == Malformed(run.status.detail)))
  }

  lemma FailedIff(sources: seq<Source>, inputs: seq<PolicyInput>, discovered: set<string>, check: string, detector: Detector, run: CheckRun)
    ensures run in FailedRuns(ContextOf(sources, inputs, discovered), check, detector) <==>
            run.check == check && Failing(sources, inputs, detector, run)
  {
    hide ContextOf, Dir, FlatMap, Unreadable;
    var errors := ContextOf(sources, inputs, discovered).parseErrors;
    FlatMapMember(FailedRunOf(check, detector), errors, run);
    if run.status.Failed? && run.check == check {
      FailedRunIff(sources, inputs, discovered, check, detector, run.subject, run.status.detail);
      assert run == CheckRun(check, run.subject, Failed(run.status.detail));
    }
  }

  // ----- the runs of projects -----

  /** The run completes a project that only this manager runs, or skips one where evidence disagrees. */
  ghost predicate Judges(m: Matcher, sources: seq<Source>, root: string, manager: Manager, run: CheckRun) {
    run.subject == Subject(root)
    && (|| (run.status == Completed && Selected(m, sources, root, manager))
        || (run.status == Skipped(AmbiguousPackageManager) && Unclear(m, sources, root, manager)))
  }

  ghost predicate ProjectRun(m: Matcher, sources: seq<Source>, inputs: seq<PolicyInput>, discovered: set<string>, check: Check, run: CheckRun) {
    match check.evaluator
    case LockfileMissing(manager) => exists root :: HasProject(m, sources, root) && Judges(m, sources, root, manager, run)
    case LockfilesConflict => run.status == Completed && exists root :: HasProject(m, sources, root) && run.subject == Subject(root)
    case UvLockMissing => run.status == Completed && exists root, i :: UvProject(m, inputs, root, i) && run.subject == Subject(root)
    case CargoLockMissing =>
      || (run.status == Completed && exists root, s :: Application(m, sources, discovered, root, s) && run.subject == Subject(root))
      || (run.status == Skipped(ProjectRoleUnknown) && exists s :: Library(sources, discovered, s) && run.subject == Subject(Dir(s.path)))
  }

  /** A Cargo package with dependencies that is not known to be an application. */
  ghost predicate Library(sources: seq<Source>, discovered: set<string>, s: Source) {
    && s in sources && s.detector == RustCargo && s.cargo.Decoded?
    && var facts := s.cargo.value;
       && facts.hasDeps && (facts.hasPackage || facts.workspaces == [])
       && !facts.application && JoinRoot(Dir(s.path), "src/main.rs") !in discovered
  }

  /** What the verdict on one project adds. */
  lemma VerdictRuns(m: Matcher, sources: seq<Source>, inputs: seq<PolicyInput>, discovered: set<string>, check: Check, root: string, run: CheckRun)
    requires CleanFiles(sources, inputs) && check.evaluator.LockfileMissing?
    ensures var ctx, manager := ContextOf(sources, inputs, discovered), check.evaluator.manager;
            run in RunsAt(m, ctx, check.id, manager)(root) <==> run.check == check.id && Judges(m, sources, root, manager, run)
  {
    hide ContextOf, Managers, HasDeps, HasInvalid, HasLockfile, Selected, Unclear, CleanFiles;
    SelectedIff(m, sources, inputs, discovered, root, check.evaluator.manager);
  }

  lemma JavaScriptRuns(m: Matcher, sources: seq<Source>, inputs: seq<PolicyInput>, discovered: set<string>, check: Check, run: CheckRun)
    requires CleanFiles(sources, inputs) && check.evaluator.LockfileMissing?
    ensures var ctx := ContextOf(sources, inputs, discovered);
            run in FlatMap(RunsAt(m, ctx, check.id, check.evaluator.manager), Sorted(ProjectRoots(m, ctx))) <==>
            run.check == check.id && ProjectRun(m, sources, inputs, discovered, check, run)
  {
    var ctx, manager := ContextOf(sources, inputs, discovered), check.evaluator.manager;
    var keys := Sorted(ProjectRoots(m, ctx));
    FlatMapMember(RunsAt(m, ctx, check.id, manager), keys, run);
    hide ContextOf, RunsAt, ProjectRoots, Sorted, Increasing, CleanFiles, Judges, Member, FlatMap;
    forall root ensures root in keys <==> HasProject(m, sources, root) {
      ProjectIff(m, sources, inputs, discovered, root);
    }
    forall root ensures run in RunsAt(m, ctx, check.id, manager)(root) <==>
                        run.check == check.id && Judges(m, sources, root, manager, run) {
      VerdictRuns(m, sources, inputs, discovered, check, root, run);
    }
  }

  lemma ConflictProjectRuns(m: Matcher, sources: seq<Source>, inputs: seq<PolicyInput>, discovered: set<string>, check: Check, run: CheckRun)
    requires CleanFiles(sources, inputs) && check.evaluator.LockfilesConflict?
    ensures var ctx := ContextOf(sources, inputs, discovered);
            run in FlatMap(CompletedRun(check.id), Sorted(ProjectRoots(m, ctx))) <==>
            run.check == check.id && ProjectRun(m, sources, inputs, discovered, check, run)
  {
    var ctx := ContextOf(sources, inputs, discovered);
    var keys := Sorted(ProjectRoots(m, ctx));
    FlatMapMember(CompletedRun(check.id), keys, run);
    hide ContextOf, ProjectRoots, Sorted, Increasing, CleanFiles, Member, FlatMap;
    forall root ensures root in keys <==> HasProject(m, sources, root) {
      ProjectIff(m, sources, inputs, discovered, root);
    }
  }

  lemma UvProjectRuns(m: Matcher, sources: seq<Source>, inputs: seq<PolicyInput>, discovered: set<string>, check: Check, run: CheckRun)
    requires CleanFiles(sources, inputs) && OnePerDirectory(inputs) && check.evaluator.UvLockMissing?
    ensures var ctx := ContextOf(sources, inputs, discovered);
            run in FlatMap(CompletedRun(check.id), UvProjects(m, ctx, ctx.uv)) <==>
            run.check == check.id && ProjectRun(m, sources, inputs, discovered, check, run)
  {
    var ctx := ContextOf(sources, inputs, discovered);
    FlatMapMember(CompletedRun(check.id), UvProjects(m, ctx, ctx.uv), run);
    hide ContextOf, CleanFiles, FlatMap, UvProjects, UvProject, OnePerDirectory;
    if root :| root in UvProjects(m, ctx, ctx.uv) && run in CompletedRun(check.id)(root) {
      UvRootIff(m, sources, inputs, discovered, root);
      assert run.subject == Subject(root);
    }
    if root, i :| UvProject(m, inputs, root, i) && run == CheckRun(check.id, Subject(root), Completed) {
      UvRootIff(m, sources, inputs, discovered, root);
      assert run in CompletedRun(check.id)(root);
    }
  }

  lemma UvRootIff(m: Matcher, sources: seq<Source>, inputs: seq<PolicyInput>, discovered: set<string>, root: string)
    requires CleanFiles(sources, inputs) && OnePerDirectory(inputs)
    ensures var ctx := ContextOf(sources, inputs, discovered);
            root in UvProjects(m, ctx, ctx.uv) <==> exists i :: UvProject(m, inputs, root, i)
  {
    var ctx := ContextOf(sources, inputs, discovered);
    UvProjectsExact(m, ctx, ctx.uv);
    hide ContextOf, CleanFiles, UvProjects, UvCounts, UvOwner, OnePerDirectory, OwnedIn;
    if root in UvProjects(m, ctx, ctx.uv) {
      var x :| x in ctx.uv && UvCounts(m, ctx, x) && UvOwner(m, ctx, x) == root;
      UvManifestIff(sources, inputs, discovered, x);
      var i :| i in inputs && x in UvOf(i);
      CountsIff(m, sources, inputs, discovered, root, i);
    }
    if i :| UvProject(m, inputs, root, i) {
      CountsIff(m, sources, inputs, discovered, root, i);
      var x := UvOf(i)[0];
      assert x in UvOf(i);
      UvManifestIff(sources, inputs, discovered, x);
    }
  }

  lemma CargoProjectRuns(m: Matcher, sources: seq<Source>, inputs: seq<PolicyInput>, discovered: set<string>, check: Check, run: CheckRun)
    requires CleanFiles(sources, inputs) && check.evaluator.CargoLockMissing?
    ensures var ctx := ContextOf(sources, inputs, discovered);
            run in FlatMap(CargoRunAt(m, ctx, check.id), Indices(|ctx.cargo|)) <==>
            run.check == check.id && ProjectRun(m, sources, inputs, discovered, check, run)
  {
    var ctx := ContextOf(sources, inputs, discovered);
    FlatMapMember(CargoRunAt(m, ctx, check.id), Indices(|ctx.cargo|), run);
    CargoRunKinds(m, ctx, check.id, run);
    hide ContextOf, CleanFiles, FlatMap, CargoRunAt, Indices, CargoRun, ProjectRun;
    CargoRunIs(m, sources, inputs, discovered, check, run);
  }

  lemma CargoRunIs(m: Matcher, sources: seq<Source>, inputs: seq<PolicyInput>, discovered: set<string>, check: Check, run: CheckRun)
    requires CleanFiles(sources, inputs) && check.evaluator.CargoLockMissing?
    ensures CargoRun(m, ContextOf(sources, inputs, discovered), run) <==> ProjectRun(m, sources, inputs, discovered, check, run)
  {
    hide ContextOf, CleanFiles, SeenAs, LibraryAs, Application, Library, Subject, Dir;
    LibraryIff(sources, inputs, discovered, run.subject);
    ApplicationSeen(m, sources, inputs, discovered, run.subject);
  }

  lemma ApplicationSeen(m: Matcher, sources: seq<Source>, inputs: seq<PolicyInput>, discovered: set<string>, subject: string)
    requires CleanFiles(sources, inputs)
    ensures SeenAs(m, ContextOf(sources, inputs, discovered), subject) <==>
            exists root, s :: Application(m, sources, discovered, root, s) && subject == Subject(root)
  {
    hide ContextOf, CleanFiles, CargoSeen, Application, Subject;
    var ctx := ContextOf(sources, inputs, discovered);
    if root :| root in CargoSeen(m, ctx, ctx.cargo) && subject == Subject(root) {
      ApplicationIff(m, sources, inputs, discovered, root);
    }
    if root, s :| Application(m, sources, discovered, root, s) && subject == Subject(root) {
      ApplicationIff(m, sources, inputs, discovered, root);
    }
  }

  ghost predicate CargoRun(m: Matcher, ctx: Context, run: CheckRun) {
    || (run.status == Completed && SeenAs(m, ctx, run.subject))
    || (run.status == Skipped(ProjectRoleUnknown) && LibraryAs(ctx, run.subject))
  }

  ghost predicate SeenAs(m: Matcher, ctx: Context, subject: string) {
    exists root :: root in CargoSeen(m, ctx, ctx.cargo) && subject == Subject(root)
  }

  ghost predicate LibraryAs(ctx: Context, subject: string) {
    exists x :: x in ctx.cargo && CargoCounts(x) && !x.application && subject == Subject(x.root)
  }

  /** The runs over all manifests: an owner seen completes once, a library is skipped. */
  lemma CargoRunKinds(m: Matcher, ctx: Context, check: string, run: CheckRun)
    ensures (exists n :: n in Indices(|ctx.cargo|) && run in CargoRunAt(m, ctx, check)(n)) <==>
            run.check == check && CargoRun(m, ctx, run)
  {
    hide CargoCounts, CargoOwner, CargoSeen, Subject, Indices;
    IndicesAre(|ctx.cargo|);
    forall root ensures Subject(root) == ProjectSubject(root) { SubjectIs(root); }
    if n :| n in Indices(|ctx.cargo|) && run in CargoRunAt(m, ctx, check)(n) {
      if ctx.cargo[n].application { OwnerSeen(m, ctx, n); }
      assert ctx.cargo[n] in ctx.cargo;
    }
    if root :| run == CheckRun(check, Subject(root), Completed) && root in CargoSeen(m, ctx, ctx.cargo) {
      assert ctx.cargo[..|ctx.cargo|] == ctx.cargo;
      var n := FirstSeen(m, ctx, |ctx.cargo|, root);
      assert n in Indices(|ctx.cargo|) && run in CargoRunAt(m, ctx, check)(n);
    }
    if x :| x in ctx.cargo && CargoCounts(x) && !x.application && run == CheckRun(check, Subject(x.root), Skipped(ProjectRoleUnknown)) {
      var n :| 0 <= n < |ctx.cargo| && ctx.cargo[n] == x;
      assert n in Indices(|ctx.cargo|) && run in CargoRunAt(m, ctx, check)(n);
    }
  }

  lemma IndicesAre(n: nat)
    ensures forall k: nat :: k in Indices(n) <==> k < n
  {
    hide Indices;
    forall k: nat | k < n ensures k in Indices(n) { assert Indices(n)[k] == k; }
  }

  lemma SubjectIs(root: string)
    ensures Subject(root) == ProjectSubject(root)
  {
  }

  lemma OwnerSeen(m: Matcher, ctx: Context, n: nat)
    requires n < |ctx.cargo| && CargoCounts(ctx.cargo[n]) && ctx.cargo[n].application
    ensures CargoOwner(m, ctx, ctx.cargo[n]) in CargoSeen(m, ctx, ctx.cargo)
  {
  }

  /** The first manifest of an owner that is seen. */
  lemma {:induction false} FirstSeen(m: Matcher, ctx: Context, end: nat, root: string) returns (n: nat)
    requires end <= |ctx.cargo| && root in CargoSeen(m, ctx, ctx.cargo[..end])
    ensures n < end && CargoCounts(ctx.cargo[n]) && ctx.cargo[n].application && CargoOwner(m, ctx, ctx.cargo[n]) == root
    ensures root !in CargoSeen(m, ctx, ctx.cargo[..n])
  {
    hide CargoCounts, CargoOwner;
    var x :| x in ctx.cargo[..end] && CargoCounts(x) && x.application && CargoOwner(m, ctx, x) == root;
    var k :| 0 <= k < end && ctx.cargo[k] == x;
    if root in CargoSeen(m, ctx, ctx.cargo[..k]) {
      n := FirstSeen(m, ctx, k, root);
    } else {
      n := k;
    }
  }

  lemma LibraryIff(sources: seq<Source>, inputs: seq<PolicyInput>, discovered: set<string>, subject: string)
    ensures LibraryAs(ContextOf(sources, inputs, discovered), subject) <==>
            exists s :: Library(sources, discovered, s) && subject == Subject(Dir(s.path))
  {
    hide ContextOf, Dir, JoinRoot, Subject;
    var cargo := ContextOf(sources, inputs, discovered).cargo;
    if x :| x in cargo && CargoCounts(x) && !x.application && subject == Subject(x.root) {
      CargoManifestIff(sources, inputs, discovered, x);
      var s :| s in sources && x in CargoOf(discovered)(s);
      assert Library(sources, discovered, s);
    }
    if s :| Library(sources, discovered, s) && subject == Subject(Dir(s.path)) {
      var x := CargoOf(discovered)(s)[0];
      assert x in CargoOf(discovered)(s);
      CargoManifestIff(sources, inputs, discovered, x);
    }
  }

  // ----- all runs -----

  /** A check reports exactly its failed files and the runs of its projects, all under its own name. */
  lemma RunsExactly(m: Matcher, sources: seq<Source>, inputs: seq<PolicyInput>, discovered: set<string>, check: Check, run: CheckRun)
    requires CleanFiles(sources, inputs) && OnePerDirectory(inputs)
    ensures run in OutcomeOf(m, ContextOf(sources, inputs, discovered), check).runs <==>
            run.check == check.id &&
            (|| (exists detector :: detector in Watched(check.evaluator) && Failing(sources, inputs, detector, run))
             || ProjectRun(m, sources, inputs, discovered, check, run))
  {
    hide ContextOf, RunsAt, ProjectRoots, CleanFiles, OnePerDirectory, FlatMap, FailedRuns, Failing, ProjectRun, UvProjects,
         CargoRunAt, CompletedRun, Sorted;
    FailedIff(sources, inputs, discovered, check.id, Js, run);
    FailedIff(sources, inputs, discovered, check.id, JsPnpmWorkspace, run);
    FailedIff(sources, inputs, discovered, check.id, PythonPyproject, run);
    FailedIff(sources, inputs, discovered, check.id, RustCargo, run);
    match check.evaluator {
      case LockfileMissing(manager) => JavaScriptRuns(m, sources, inputs, discovered, check, run);
      case LockfilesConflict => ConflictProjectRuns(m, sources, inputs, discovered, check, run);
      case UvLockMissing => UvProjectRuns(m, sources, inputs, discovered, check, run);
      case CargoLockMissing => CargoProjectRuns(m, sources, inputs, discovered, check, run);
    }
  }
}
