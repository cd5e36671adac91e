/** Removing or adding sources an evaluator does not rely on leaves its report unchanged. */
module Noninterference {
  import opened Text
  import opened Lists
  import opened Workspaces
  import opened Evidence
  import opened Reports
  import opened JavaScriptChecks
  import opened TomlChecks
  import opened Exclusions

  // ----- two source lists with the same evidence -----

  function DetectedBy(detectors: set<Detector>): Source -> bool { (s: Source) => s.detector in detectors }

  ghost predicate SameEvidence(a: seq<Source>, b: seq<Source>, detectors: set<Detector>) {
    Filter(DetectedBy(detectors), a) == Filter(DetectedBy(detectors), b)
  }

  lemma SameContribution<T>(f: Source -> seq<T>, a: seq<Source>, b: seq<Source>, detectors: set<Detector>)
    requires SameEvidence(a, b, detectors)
    requires forall s :: f(s) != [] ==> s.detector in detectors
    ensures FlatMap(f, a) == FlatMap(f, b)
  {
    FlatMapOfFilter(f, DetectedBy(detectors), a);
    FlatMapOfFilter(f, DetectedBy(detectors), b);
  }

  lemma SameMembers(a: seq<Source>, b: seq<Source>, detectors: set<Detector>, s: Source)
    requires SameEvidence(a, b, detectors) && s.detector in detectors
    ensures s in a <==> s in b
  {
    var p := DetectedBy(detectors);
    FlatMapMember(Only(p), a, s);
    FlatMapMember(Only(p), b, s);
    assert forall x :: s in Only(p)(x) <==> x == s;
  }

  lemma SameFailures(a: seq<Source>, b: seq<Source>, inputs: seq<PolicyInput>, discovered: set<string>,
                     detectors: set<Detector>, check: string, detector: Detector)
    requires SameEvidence(a, b, detectors) && (detector in detectors || detector == PythonPyproject)
    ensures FailedRuns(ContextOf(a, inputs, discovered), check, detector)
         == FailedRuns(ContextOf(b, inputs, discovered), check, detector)
  {
    var g := FailedRunOf(check, detector);
    var uvErrors := FlatMap(UvErrorOf, inputs);
    FlatMapAppend(g, FlatMap(ErrorOf, a), uvErrors);
    FlatMapAppend(g, FlatMap(ErrorOf, b), uvErrors);
    FlatMapCompose(ErrorOf, g, a);
    FlatMapCompose(ErrorOf, g, b);
    forall s | Compose(ErrorOf, g)(s) != [] ensures s.detector in detectors {
      ErrorNamesDetector(g, s, check, detector);
    }
    SameContribution(Compose(ErrorOf, g), a, b, detectors);
  }

  lemma ErrorNamesDetector(g: ParseError -> seq<CheckRun>, s: Source, check: string, detector: Detector)
    requires g == FailedRunOf(check, detector) && FlatMap(g, ErrorOf(s)) != []
    ensures s.detector == detector && detector != PythonPyproject
  {
    assert ErrorOf(s) == [] || ErrorOf(s)[0].detector == s.detector;
    if ErrorOf(s) != [] {
      assert Init(ErrorOf(s)) == [];
      assert FlatMap(g, ErrorOf(s)) == [] + g(ErrorOf(s)[0]);
    }
  }

  // ----- paths an evaluator looks up -----

  predicate JsLookup(root: string, path: string) {
    path == JoinRoot(root, PACKAGE_JSON)
    || exists manager, k :: manager in LOCKFILE_MANAGERS && 0 <= k < |LockfileNames(manager)|
                            && path == JoinRoot(root, LockfileNames(manager)[k])
  }

  ghost predicate LooksUp(m: Matcher, ctx: Context, evaluator: Evaluator, path: string) {
    match evaluator
    case LockfileMissing(_) => exists root :: root in ProjectRoots(m, ctx) && JsLookup(root, path)
    case LockfilesConflict => exists root :: root in ProjectRoots(m, ctx) && JsLookup(root, path)
    case UvLockMissing => exists x :: x in ctx.uv && path == JoinRoot(UvOwner(m, ctx, x), UV_LOCK)
    case CargoLockMissing => exists x ::
      && x in ctx.cargo
      && (path == JoinRoot(CargoOwner(m, ctx, x), CARGO_LOCK) || path == JoinRoot(CargoOwner(m, ctx, x), CARGO_TOML))
  }

  // ----- agreement of two contexts on the JavaScript evidence -----

  ghost predicate OwnersAgree(m: Matcher, a: Context, b: Context) {
    && a.javascript == b.javascript
    && forall x: JsManifest :: OwnerRoot(m, a, x) == OwnerRoot(m, b, x)
  }

  ghost predicate LookupsAgree(m: Matcher, a: Context, b: Context) {
    forall root, path :: root in ProjectRoots(m, a) && JsLookup(root, path) ==> (a.Holds(path) <==> b.Holds(path))
  }

  lemma RootsAgree(m: Matcher, a: Context, b: Context)
    requires OwnersAgree(m, a, b)
    ensures ProjectRoots(m, a) == ProjectRoots(m, b)
  {
    hide OwnerRoot;
  }

  lemma {:induction false} FirstMembersAgree(m: Matcher, a: Context, b: Context, manifests: seq<JsManifest>,
                                        root: string)
    requires OwnersAgree(m, a, b)
    requires root in Roots(m, a, manifests) && root in Roots(m, b, manifests)
    ensures FirstMember(m, a, manifests, root) == FirstMember(m, b, manifests, root)
  {
    hide OwnerRoot;
    if OwnerRoot(m, a, manifests[0]) != root {
      assert manifests == [manifests[0]] + manifests[1..];
      FirstMembersAgree(m, a, b, manifests[1..], root);
    }
  }

  lemma ManifestsAgree(m: Matcher, a: Context, b: Context, root: string)
    requires OwnersAgree(m, a, b) && LookupsAgree(m, a, b) && root in ProjectRoots(m, a)
    ensures root in ProjectRoots(m, b)
    ensures ManifestOf(m, a, a.javascript, root) == ManifestOf(m, b, b.javascript, root)
  {
    hide OwnerRoot;
    RootsAgree(m, a, b);
    FirstMembersAgree(m, a, b, a.javascript, root);
    assert JsLookup(root, JoinRoot(root, PACKAGE_JSON));
  }

  lemma LocksAgree(m: Matcher, a: Context, b: Context, root: string)
    requires LookupsAgree(m, a, b) && root in ProjectRoots(m, a)
    ensures LockManagers(a, root) == LockManagers(b, root) && LockfilesAt(a, root) == LockfilesAt(b, root)
    ensures forall manager :: HasLockfile(a, root, manager) == HasLockfile(b, root, manager)
  {
    hide ProjectRoots;
    forall manager, k | 0 <= k < |LockfileNames(manager)|
      ensures a.Holds(JoinRoot(root, LockfileNames(manager)[k])) == b.Holds(JoinRoot(root, LockfileNames(manager)[k]))
    {
      assert manager in LOCKFILE_MANAGERS;
      assert JsLookup(root, JoinRoot(root, LockfileNames(manager)[k]));
    }
  }

  lemma GroupsAgree(m: Matcher, a: Context, b: Context, root: string)
    requires OwnersAgree(m, a, b)
    ensures HasDeps(m, a, a.javascript, root) == HasDeps(m, b, b.javascript, root)
    ensures HasInvalid(m, a, a.javascript, root) == HasInvalid(m, b, b.javascript, root)
    ensures DeclaredManagers(m, a, a.javascript, root) == DeclaredManagers(m, b, b.javascript, root)
  {
    hide OwnerRoot;
  }

  lemma VerdictsAgree(m: Matcher, a: Context, b: Context, manager: Manager, root: string)
    requires OwnersAgree(m, a, b) && LookupsAgree(m, a, b) && root in ProjectRoots(m, a)
    requires Elements(a.spaces) == Elements(b.spaces)
    ensures VerdictAt(m, a, manager, root) == VerdictAt(m, b, manager, root)
  {
    hide OwnerRoot, OwnersAgree, LookupsAgree, HasDeps, HasInvalid, DeclaredManagers, LockManagers, HasLockfile, ProjectRoots;
    GroupsAgree(m, a, b, root);
    LocksAgree(m, a, b, root);
    assert SpaceManagers(a.spaces, root) == SpaceManagers(b.spaces, root) by {
      assert forall w :: w in a.spaces <==> w in Elements(a.spaces);
      assert forall w :: w in b.spaces <==> w in Elements(b.spaces);
    }
  }

  lemma LockfileChecksAgree(m: Matcher, a: Context, b: Context, check: string, manager: Manager)
    requires OwnersAgree(m, a, b) && LookupsAgree(m, a, b) && Elements(a.spaces) == Elements(b.spaces)
    requires FailedRuns(a, check, Js) == FailedRuns(b, check, Js)
    requires FailedRuns(a, check, JsPnpmWorkspace) == FailedRuns(b, check, JsPnpmWorkspace)
    ensures LockfileRuns(m, a, check, manager) == LockfileRuns(m, b, check, manager)
    ensures LockfileFindings(m, a, check, manager) == LockfileFindings(m, b, check, manager)
  {
    hide VerdictAt, OwnersAgree, LookupsAgree, ManifestOf, ProjectRoots, FailedRuns, Elements, Increasing;
    RootsAgree(m, a, b);
    var keys := Sorted(ProjectRoots(m, a));
    forall root | root in keys
      ensures RunsAt(m, a, check, manager)(root) == RunsAt(m, b, check, manager)(root)
      ensures FindingAt(m, a, check, manager)(root) == FindingAt(m, b, check, manager)(root)
    {
      VerdictsAgree(m, a, b, manager, root);
      ManifestsAgree(m, a, b, root);
    }
    FlatMapCongruence(RunsAt(m, a, check, manager), RunsAt(m, b, check, manager), keys);
    FlatMapCongruence(FindingAt(m, a, check, manager), FindingAt(m, b, check, manager), keys);
  }

  lemma ConflictChecksAgree(m: Matcher, a: Context, b: Context, check: string)
    requires OwnersAgree(m, a, b) && LookupsAgree(m, a, b)
    requires FailedRuns(a, check, Js) == FailedRuns(b, check, Js)
    ensures ConflictRuns(m, a, check) == ConflictRuns(m, b, check)
    ensures ConflictFindings(m, a, check) == ConflictFindings(m, b, check)
  {
    hide OwnersAgree, LookupsAgree, ManifestOf, ProjectRoots, FailedRuns, Increasing, LockManagers, LockfilesAt;
    RootsAgree(m, a, b);
    var keys := Sorted(ProjectRoots(m, a));
    forall root | root in keys ensures ConflictAt(m, a, check)(root) == ConflictAt(m, b, check)(root) {
      LocksAgree(m, a, b, root);
      ManifestsAgree(m, a, b, root);
    }
    FlatMapCongruence(ConflictAt(m, a, check), ConflictAt(m, b, check), keys);
  }

  // ----- the contexts of two source lists with the same evidence agree -----

  lemma SameJavaScript(a: seq<Source>, b: seq<Source>, detectors: set<Detector>)
    requires SameEvidence(a, b, detectors) && JS_DETECTORS <= detectors
    ensures FlatMap(JsOf, a) == FlatMap(JsOf, b)
  {
    SameContribution(JsOf, a, b, detectors);
  }

  lemma SpacesOf(sources: seq<Source>, inputs: seq<PolicyInput>, discovered: set<string>)
    ensures Elements(ContextOf(sources, inputs, discovered).spaces)
         == Elements(FlatMap(SpaceOf, sources) + FlatMap(DeclaredSpace, FlatMap(JsOf, sources)))
  {
    SortByMembers(SpaceRoot, FlatMap(SpaceOf, sources) + FlatMap(DeclaredSpace, FlatMap(JsOf, sources)));
  }

  lemma PatternsComeFromPnpm(s: Source, w: Workspace)
    requires w in SpaceOf(s) && w.patterns != []
    ensures s.detector == JsPnpmWorkspace
  {
  }

  /** Without the yarnrc detector in common, the workspaces still agree on every pattern. */
  lemma SamePatternedSpaces(a: seq<Source>, b: seq<Source>, inputs: seq<PolicyInput>, discovered: set<string>,
                            detectors: set<Detector>, w: Workspace)
    requires SameEvidence(a, b, detectors) && JS_DETECTORS <= detectors && w.patterns != []
    requires w in Elements(ContextOf(a, inputs, discovered).spaces)
    ensures w in Elements(ContextOf(b, inputs, discovered).spaces)
  {
    hide SpaceOf, DeclaredSpace, ContextOf, FlatMap, SameEvidence;
    SpacesOf(a, inputs, discovered);
    SpacesOf(b, inputs, discovered);
    SameJavaScript(a, b, detectors);
    if w in FlatMap(SpaceOf, a) {
      FlatMapMember(SpaceOf, a, w);
      var s :| s in a && w in SpaceOf(s);
      PatternsComeFromPnpm(s, w);
      SameMembers(a, b, detectors, s);
      FlatMapMember(SpaceOf, b, w);
    }
  }

  lemma SameSymmetric(a: seq<Source>, b: seq<Source>, detectors: set<Detector>)
    requires SameEvidence(a, b, detectors)
    ensures SameEvidence(b, a, detectors)
  {
  }

  lemma BuiltOwnersAgree(m: Matcher, a: seq<Source>, b: seq<Source>, inputs: seq<PolicyInput>, discovered: set<string>,
                         detectors: set<Detector>)
    requires SameEvidence(a, b, detectors) && JS_DETECTORS <= detectors
    ensures OwnersAgree(m, ContextOf(a, inputs, discovered), ContextOf(b, inputs, discovered))
  {
    hide Owner, SameEvidence;
    var ca, cb := ContextOf(a, inputs, discovered), ContextOf(b, inputs, discovered);
    SameJavaScript(a, b, detectors);
    SameSymmetric(a, b, detectors);
    forall w: Workspace | w.patterns != [] ensures w in Elements(ca.spaces) <==> w in Elements(cb.spaces) {
      if w in Elements(ca.spaces) { SamePatternedSpaces(a, b, inputs, discovered, detectors, w); }
      if w in Elements(cb.spaces) { SamePatternedSpaces(b, a, inputs, discovered, detectors, w); }
    }
    forall x: JsManifest ensures OwnerRoot(m, ca, x) == OwnerRoot(m, cb, x) {
      PatternlessNeverOwns(m, x.root, Elements(ca.spaces), Elements(cb.spaces));
    }
  }

  ghost predicate SameLookups(m: Matcher, a: seq<Source>, b: seq<Source>, ctx: Context, evaluator: Evaluator) {
    forall path :: LooksUp(m, ctx, evaluator, path) ==> (path in PathMap(a) <==> path in PathMap(b))
  }

  lemma JavaScriptUnchanged(m: Matcher, a: seq<Source>, b: seq<Source>, inputs: seq<PolicyInput>,
                            discovered: set<string>, check: Check)
    requires check.evaluator.LockfileMissing? || check.evaluator.LockfilesConflict?
    requires SameEvidence(a, b, Prerequisites(check.evaluator))
    requires SameLookups(m, a, b, ContextOf(a, inputs, discovered), check.evaluator)
    ensures OutcomeOf(m, ContextOf(a, inputs, discovered), check) == OutcomeOf(m, ContextOf(b, inputs, discovered), check)
  {
    hide OwnersAgree, ProjectRoots, FailedRuns, SameEvidence, LockfileRuns, LockfileFindings, ConflictRuns, ConflictFindings, JsLookup;
    var ca, cb := ContextOf(a, inputs, discovered), ContextOf(b, inputs, discovered);
    var detectors := Prerequisites(check.evaluator);
    BuiltOwnersAgree(m, a, b, inputs, discovered, detectors);
    SameFailures(a, b, inputs, discovered, detectors, check.id, Js);
    SameFailures(a, b, inputs, discovered, detectors, check.id, JsPnpmWorkspace);
    assert LookupsAgree(m, ca, cb) by {
      forall root, path | root in ProjectRoots(m, ca) && JsLookup(root, path) ensures ca.Holds(path) <==> cb.Holds(path) {
        assert LooksUp(m, ca, check.evaluator, path);
      }
    }
    if check.evaluator.LockfileMissing? {
      SpacesOf(a, inputs, discovered);
      SpacesOf(b, inputs, discovered);
      SameJavaScript(a, b, detectors);
      SameContribution(SpaceOf, a, b, detectors);
      LockfileChecksAgree(m, ca, cb, check.id, check.evaluator.manager);
    } else {
      ConflictChecksAgree(m, ca, cb, check.id);
    }
  }

  lemma UvUnchanged(m: Matcher, a: seq<Source>, b: seq<Source>, inputs: seq<PolicyInput>, discovered: set<string>,
                    check: Check)
    requires check.evaluator == UvLockMissing && SameEvidence(a, b, Prerequisites(UvLockMissing))
    requires SameLookups(m, a, b, ContextOf(a, inputs, discovered), UvLockMissing)
    ensures OutcomeOf(m, ContextOf(a, inputs, discovered), check) == OutcomeOf(m, ContextOf(b, inputs, discovered), check)
  {
    hide LooksUp, UvRuns, UvFindings, SameEvidence, FailedRuns;
    var ca, cb := ContextOf(a, inputs, discovered), ContextOf(b, inputs, discovered);
    SameFailures(a, b, inputs, discovered, Prerequisites(UvLockMissing), check.id, PythonPyproject);
    UvChecksAgree(m, ca, cb, check.id);
  }

  lemma CargoUnchanged(m: Matcher, a: seq<Source>, b: seq<Source>, inputs: seq<PolicyInput>, discovered: set<string>,
                       check: Check)
    requires check.evaluator == CargoLockMissing && SameEvidence(a, b, Prerequisites(CargoLockMissing))
    requires SameLookups(m, a, b, ContextOf(a, inputs, discovered), CargoLockMissing)
    ensures OutcomeOf(m, ContextOf(a, inputs, discovered), check) == OutcomeOf(m, ContextOf(b, inputs, discovered), check)
  {
    hide LooksUp, CargoRuns, CargoFindings, SameEvidence, FailedRuns;
    var ca, cb := ContextOf(a, inputs, discovered), ContextOf(b, inputs, discovered);
    var detectors := Prerequisites(CargoLockMissing);
    SameFailures(a, b, inputs, discovered, detectors, check.id, RustCargo);
    SameContribution(CargoOf(discovered), a, b, detectors);
    CargoChecksAgree(m, ca, cb, check.id);
  }

  lemma UvFindingsAgree(m: Matcher, a: Context, b: Context, check: string, x: UvManifest)
    requires a.uv == b.uv && x in a.uv
    requires forall path :: LooksUp(m, a, UvLockMissing, path) ==> (a.Holds(path) <==> b.Holds(path))
    ensures UvFindingAt(a, check)(UvOwner(m, a, x)) == UvFindingAt(b, check)(UvOwner(m, a, x))
  {
    hide FirstAt, UvOwner, JoinRoot, CargoOwner, ProjectRoots, UvFinding;
    assert LooksUp(m, a, UvLockMissing, JoinRoot(UvOwner(m, a, x), UV_LOCK));
  }

  lemma UvChecksAgree(m: Matcher, a: Context, b: Context, check: string)
    requires a.uv == b.uv && FailedRuns(a, check, PythonPyproject) == FailedRuns(b, check, PythonPyproject)
    requires forall path :: LooksUp(m, a, UvLockMissing, path) ==> (a.Holds(path) <==> b.Holds(path))
    ensures UvRuns(m, a, check) == UvRuns(m, b, check) && UvFindings(m, a, check) == UvFindings(m, b, check)
  {
    hide FailedRuns, UvFindingAt, UvProjects, UvOwner, UvCounts, LooksUp, FlatMap;
    SameUvProjects(m, a, b, a.uv);
    var projects := UvProjects(m, a, a.uv);
    UvProjectsExact(m, a, a.uv);
    forall root | root in projects ensures UvFindingAt(a, check)(root) == UvFindingAt(b, check)(root) {
      var x :| x in a.uv && UvCounts(m, a, x) && UvOwner(m, a, x) == root;
      UvFindingsAgree(m, a, b, check, x);
    }
    FlatMapCongruence(UvFindingAt(a, check), UvFindingAt(b, check), projects);
  }

  lemma {:induction false} SameUvProjects(m: Matcher, a: Context, b: Context, manifests: seq<UvManifest>)
    requires a.uv == b.uv
    ensures UvProjects(m, a, manifests) == UvProjects(m, b, manifests)
  {
    hide Owner;
    if manifests != [] {
      SameUvProjects(m, a, b, Init(manifests));
    }
  }

  lemma CargoChecksAgree(m: Matcher, a: Context, b: Context, check: string)
    requires a.cargo == b.cargo && FailedRuns(a, check, RustCargo) == FailedRuns(b, check, RustCargo)
    requires forall path :: LooksUp(m, a, CargoLockMissing, path) ==> (a.Holds(path) <==> b.Holds(path))
    ensures CargoRuns(m, a, check) == CargoRuns(m, b, check) && CargoFindings(m, a, check) == CargoFindings(m, b, check)
  {
    hide FailedRuns, Owner, LooksUp;
    var n := |a.cargo|;
    forall i: nat
      ensures CargoRunAt(m, a, check)(i) == CargoRunAt(m, b, check)(i)
      ensures CargoFindingAt(m, a, check)(i) == CargoFindingAt(m, b, check)(i)
    {
      CargoStepAgrees(m, a, b, check, i);
    }
    FlatMapCongruence(CargoRunAt(m, a, check), CargoRunAt(m, b, check), Indices(n));
    FlatMapCongruence(CargoFindingAt(m, a, check), CargoFindingAt(m, b, check), Indices(n));
  }

  lemma CargoStepAgrees(m: Matcher, a: Context, b: Context, check: string, i: nat)
    requires a.cargo == b.cargo
    requires forall path :: LooksUp(m, a, CargoLockMissing, path) ==> (a.Holds(path) <==> b.Holds(path))
    ensures CargoRunAt(m, a, check)(i) == CargoRunAt(m, b, check)(i)
    ensures CargoFindingAt(m, a, check)(i) == CargoFindingAt(m, b, check)(i)
  {
    hide Owner;
    assert forall x :: CargoOwner(m, a, x) == CargoOwner(m, b, x);
    if i < |a.cargo| {
      var x := a.cargo[i];
      assert CargoSeen(m, a, a.cargo[..i]) == CargoSeen(m, b, b.cargo[..i]) by { hide CargoOwner; }
      assert LooksUp(m, a, CargoLockMissing, JoinRoot(CargoOwner(m, a, x), CARGO_LOCK));
      assert LooksUp(m, a, CargoLockMissing, JoinRoot(CargoOwner(m, a, x), CARGO_TOML));
    }
  }

  /** The report of a check depends only on the sources of its prerequisite detectors and on which
      of the paths it looks up carry a source. */
  lemma OutcomeUnchanged(m: Matcher, a: seq<Source>, b: seq<Source>, inputs: seq<PolicyInput>,
                         discovered: set<string>, check: Check)
    requires SameEvidence(a, b, Prerequisites(check.evaluator))
    requires SameLookups(m, a, b, ContextOf(a, inputs, discovered), check.evaluator)
    ensures OutcomeOf(m, ContextOf(a, inputs, discovered), check) == OutcomeOf(m, ContextOf(b, inputs, discovered), check)
  {
    hide SameEvidence, SameLookups, OutcomeOf, ContextOf, Prerequisites;
    match check.evaluator {
      case LockfileMissing(_) => JavaScriptUnchanged(m, a, b, inputs, discovered, check);
      case LockfilesConflict => JavaScriptUnchanged(m, a, b, inputs, discovered, check);
      case UvLockMissing => UvUnchanged(m, a, b, inputs, discovered, check);
      case CargoLockMissing => CargoUnchanged(m, a, b, inputs, discovered, check);
    }
  }

  // ----- excluding detectors from a scan -----

  /** What a detector makes of a file: nothing when it does not match or does not recognise it. */
  type Analyser = (string, Detector) -> Option<Source>

  ghost predicate Honest(analyse: Analyser) {
    forall file, d :: analyse(file, d).Some? ==> analyse(file, d).value.path == file && analyse(file, d).value.detector == d
  }

  /** The first detector, in order, that recognises the file provides its source. */
  method AnalyzeDependencySource(analyse: Analyser, detectors: seq<Detector>, file: string)
    returns (source: seq<Source>)
    ensures source == Recognised(analyse, detectors)(file)
  {
    for n := 0 to |detectors|
      invariant FirstSource(analyse, detectors, file) == FirstSource(analyse, detectors[n..], file)
    {
      assert detectors[n..][1..] == detectors[n + 1..];
      var result := analyse(file, detectors[n]);
      if result.Some? {
        return [result.value];
      }
    }
    return [];
  }

  function FirstSource(analyse: Analyser, detectors: seq<Detector>, file: string): seq<Source> {
    if detectors == [] then []
    else
      var result := analyse(file, detectors[0]);
      if result.Some? then [result.value] else FirstSource(analyse, detectors[1..], file)
  }

  function Recognised(analyse: Analyser, detectors: seq<Detector>): string -> seq<Source> {
    (file: string) => FirstSource(analyse, detectors, file)
  }

  function Scanned(analyse: Analyser, detectors: seq<Detector>, files: seq<string>): seq<Source> {
    FlatMap(Recognised(analyse, detectors), files)
  }

  lemma {:induction false} FilterTail<T>(p: T -> bool, xs: seq<T>)
    requires xs != []
    ensures Filter(p, xs) == Only(p)(xs[0]) + Filter(p, xs[1..])
  {
    FlatMapAppend(Only(p), [xs[0]], xs[1..]);
    assert [xs[0]] + xs[1..] == xs;
    assert FlatMap(Only(p), [xs[0]]) == FlatMap(Only(p), []) + Only(p)(xs[0]);
  }

  /** First recognised still wins among the survivors: a source of a surviving detector stays, an
      unrecognised file stays unrecognised. */
  lemma {:induction false} SurvivorsKeepTheirFiles(analyse: Analyser, detectors: seq<Detector>,
                                        removed: set<Detector>, file: string)
    requires Honest(analyse)
    ensures var all := FirstSource(analyse, detectors, file);
            all == [] || all[0].detector !in removed ==>
              FirstSource(analyse, Filter(Surviving(removed), detectors), file) == all
  {
    if detectors != [] {
      FilterTail(Surviving(removed), detectors);
      var rest := Filter(Surviving(removed), detectors[1..]);
      SurvivorsKeepTheirFiles(analyse, detectors[1..], removed, file);
      if detectors[0] in removed {
        assert Filter(Surviving(removed), detectors) == rest;
      } else {
        assert Filter(Surviving(removed), detectors) == [detectors[0]] + rest;
        assert ([detectors[0]] + rest)[1..] == rest;
      }
    }
  }

  /** The first recogniser is removed, and a prerequisite detector was waiting behind it. */
  ghost predicate Unmasked(analyse: Analyser, detectors: seq<Detector>, removed: set<Detector>,
                           prerequisites: set<Detector>, file: string)
  {
    var all, left := FirstSource(analyse, detectors, file), FirstSource(analyse, Filter(Surviving(removed), detectors), file);
    all != [] && all[0].detector in removed && left != [] && left[0].detector in prerequisites
  }

  ghost predicate NothingUnmasked(analyse: Analyser, detectors: seq<Detector>, removed: set<Detector>,
                                  prerequisites: set<Detector>, files: seq<string>) {
    forall file :: file in files ==> !Unmasked(analyse, detectors, removed, prerequisites, file)
  }

  /** What the prerequisite detectors contribute for one file. */
  function EvidenceFor(analyse: Analyser, detectors: seq<Detector>, prerequisites: set<Detector>): string -> seq<Source> {
    (file: string) => FlatMap(Only(DetectedBy(prerequisites)), FirstSource(analyse, detectors, file))
  }

  /** Excluding other detectors never loses evidence for a file, and adds some exactly where it unmasks. */
  lemma FileKeepsEvidence(analyse: Analyser, detectors: seq<Detector>, removed: set<Detector>,
                          prerequisites: set<Detector>, file: string)
    requires Honest(analyse) && removed * prerequisites == {}
    ensures var before := EvidenceFor(analyse, detectors, prerequisites)(file);
            var after := EvidenceFor(analyse, Filter(Surviving(removed), detectors), prerequisites)(file);
            if Unmasked(analyse, detectors, removed, prerequisites, file) then |before| < |after| else before == after
  {
    hide Filter, FirstSource, FlatMap;
    var survivors := Filter(Surviving(removed), detectors);
    assert forall d :: d in removed && d in prerequisites ==> d in removed * prerequisites;
    SurvivorsKeepTheirFiles(analyse, detectors, removed, file);
    AtMostOneSource(analyse, detectors, file);
    AtMostOneSource(analyse, survivors, file);
    OneSourceFiltered(DetectedBy(prerequisites), FirstSource(analyse, detectors, file));
    OneSourceFiltered(DetectedBy(prerequisites), FirstSource(analyse, survivors, file));
  }

  lemma EvidenceOfScan(analyse: Analyser, detectors: seq<Detector>, prerequisites: set<Detector>, files: seq<string>)
    ensures Filter(DetectedBy(prerequisites), Scanned(analyse, detectors, files))
         == FlatMap(EvidenceFor(analyse, detectors, prerequisites), files)
  {
    hide FirstSource, FlatMap;
    var only := Only(DetectedBy(prerequisites));
    FlatMapCompose(Recognised(analyse, detectors), only, files);
    FlatMapCongruence(Compose(Recognised(analyse, detectors), only), EvidenceFor(analyse, detectors, prerequisites), files);
  }

  lemma {:induction false} MoreContributed<S, T>(f: S -> seq<T>, g: S -> seq<T>, xs: seq<S>)
    requires forall x :: x in xs ==> |f(x)| <= |g(x)|
    ensures |FlatMap(f, xs)| <= |FlatMap(g, xs)|
    ensures (exists x :: x in xs && |f(x)| < |g(x)|) ==> |FlatMap(f, xs)| < |FlatMap(g, xs)|
  {
    if xs != [] {
      MoreContributed(f, g, Init(xs));
      assert forall x :: x in xs <==> x in Init(xs) || x == Last(xs);
    }
  }

  /** Excluding detectors outside the prerequisites keeps the evidence exactly when it unmasks nothing. */
  lemma ExclusionKeepsEvidence(analyse: Analyser, detectors: seq<Detector>, removed: set<Detector>,
                               prerequisites: set<Detector>, files: seq<string>)
    requires Honest(analyse) && removed * prerequisites == {}
    ensures SameEvidence(Scanned(analyse, detectors, files),
                         Scanned(analyse, Filter(Surviving(removed), detectors), files), prerequisites)
            <==> NothingUnmasked(analyse, detectors, removed, prerequisites, files)
  {
    var survivors := Filter(Surviving(removed), detectors);
    var before, after := EvidenceFor(analyse, detectors, prerequisites), EvidenceFor(analyse, survivors, prerequisites);
    EvidenceOfScan(analyse, detectors, prerequisites, files);
    EvidenceOfScan(analyse, survivors, prerequisites, files);
    hide FirstSource, FlatMap, Filter, Scanned, EvidenceFor, Honest, Surviving;
    forall file ensures if Unmasked(analyse, detectors, removed, prerequisites, file)
                        then |before(file)| < |after(file)| else before(file) == after(file) {
      FileKeepsEvidence(analyse, detectors, removed, prerequisites, file);
    }
    if NothingUnmasked(analyse, detectors, removed, prerequisites, files) {
      forall file | file in files ensures before(file) == after(file) {
        assert !Unmasked(analyse, detectors, removed, prerequisites, file);
      }
      FlatMapCongruence(before, after, files);
    } else {
      var file :| file in files && Unmasked(analyse, detectors, removed, prerequisites, file);
      MoreContributed(before, after, files);
    }
  }

  lemma {:induction false} AtMostOneSource(analyse: Analyser, detectors: seq<Detector>, file: string)
    ensures |FirstSource(analyse, detectors, file)| <= 1
  {
    if detectors != [] {
      AtMostOneSource(analyse, detectors[1..], file);
    }
  }

  lemma OneSourceFiltered(p: Source -> bool, found: seq<Source>)
    requires |found| <= 1
    ensures FlatMap(Only(p), found) == if found != [] && p(found[0]) then found else []
  {
    if found != [] {
      assert Init(found) == [];
    }
  }

  // ----- looked-up files -----

  lemma {:induction false} PathMapHolds(sources: seq<Source>, path: string)
    ensures path in PathMap(sources) <==> exists s :: s in sources && s.path == path
  {
    if sources != [] {
      PathMapHolds(Init(sources), path);
      assert forall s :: s in sources <==> s in Init(sources) || s == Last(sources);
    }
  }

  /** A path carries a source exactly when it was scanned and some detector recognises it. */
  lemma ScanHolds(analyse: Analyser, detectors: seq<Detector>, files: seq<string>, path: string)
    requires Honest(analyse)
    ensures path in PathMap(Scanned(analyse, detectors, files)) <==> path in files && FirstSource(analyse, detectors, path) != []
  {
    hide FlatMap, PathMap;
    var f := Recognised(analyse, detectors);
    PathMapHolds(Scanned(analyse, detectors, files), path);
    if s :| s in Scanned(analyse, detectors, files) && s.path == path {
      FlatMapMember(f, files, s);
      var file :| file in files && s in f(file);
      SourceOfFile(analyse, detectors, file);
    }
    if path in files && FirstSource(analyse, detectors, path) != [] {
      SourceOfFile(analyse, detectors, path);
      FlatMapMember(f, files, FirstSource(analyse, detectors, path)[0]);
      assert FirstSource(analyse, detectors, path)[0] in f(path);
    }
  }

  lemma {:induction false} SourceOfFile(analyse: Analyser, detectors: seq<Detector>, file: string)
    requires Honest(analyse)
    ensures forall s :: s in FirstSource(analyse, detectors, file) ==> s.path == file
  {
    if detectors != [] {
      SourceOfFile(analyse, detectors[1..], file);
    }
  }

  /** Recognised, but by excluded detectors only. */
  predicate Lost(analyse: Analyser, detectors: seq<Detector>, removed: set<Detector>, file: string) {
    && (exists d :: d in detectors && analyse(file, d).Some?)
    && forall d :: d in detectors && analyse(file, d).Some? ==> d in removed
  }

  lemma {:induction false} FoundIff(analyse: Analyser, detectors: seq<Detector>, file: string)
    ensures FirstSource(analyse, detectors, file) != [] <==> exists d :: d in detectors && analyse(file, d).Some?
  {
    if detectors != [] {
      FoundIff(analyse, detectors[1..], file);
      assert forall d :: d in detectors <==> d == detectors[0] || d in detectors[1..];
    }
  }

  lemma SurvivorsIff(detectors: seq<Detector>, removed: set<Detector>, d: Detector)
    ensures d in Filter(Surviving(removed), detectors) <==> d in detectors && d !in removed
  {
    FlatMapMember(Only(Surviving(removed)), detectors, d);
    assert forall x :: d in Only(Surviving(removed))(x) <==> x == d && d !in removed;
  }

  lemma LostIff(analyse: Analyser, detectors: seq<Detector>, removed: set<Detector>, file: string)
    ensures Lost(analyse, detectors, removed, file) <==>
            FirstSource(analyse, detectors, file) != [] && FirstSource(analyse, Filter(Surviving(removed), detectors), file) == []
  {
    hide FirstSource, Filter;
    FoundIff(analyse, detectors, file);
    FoundIff(analyse, Filter(Surviving(removed), detectors), file);
    forall d { SurvivorsIff(detectors, removed, d); }
  }

  /** No file that the check looks up is recognised by excluded detectors only. */
  ghost predicate LookupsKept(m: Matcher, analyse: Analyser, detectors: seq<Detector>, removed: set<Detector>,
                              files: seq<string>, ctx: Context, evaluator: Evaluator) {
    forall path :: LooksUp(m, ctx, evaluator, path) && path in files ==> !Lost(analyse, detectors, removed, path)
  }

  /** Looked-up files give the same answers after an exclusion exactly when none of them is lost. */
  lemma ExclusionKeepsLookups(m: Matcher, analyse: Analyser, detectors: seq<Detector>, removed: set<Detector>,
                              files: seq<string>, ctx: Context, evaluator: Evaluator)
    requires Honest(analyse)
    ensures SameLookups(m, Scanned(analyse, detectors, files), Scanned(analyse, Filter(Surviving(removed), detectors), files),
                        ctx, evaluator)
            <==> LookupsKept(m, analyse, detectors, removed, files, ctx, evaluator)
  {
    hide FirstSource, Filter, Honest, Scanned, LooksUp, PathMap, Lost;
    var survivors := Filter(Surviving(removed), detectors);
    forall path
      ensures (path in PathMap(Scanned(analyse, detectors, files)) <==> path in PathMap(Scanned(analyse, survivors, files)))
              <==> (path in files ==> !Lost(analyse, detectors, removed, path))
    {
      ScanHolds(analyse, detectors, files, path);
      ScanHolds(analyse, survivors, files, path);
      LostIff(analyse, detectors, removed, path);
      NothingGained(analyse, detectors, removed, path);
    }
  }

  lemma NothingGained(analyse: Analyser, detectors: seq<Detector>, removed: set<Detector>, file: string)
    ensures FirstSource(analyse, Filter(Surviving(removed), detectors), file) != [] ==> FirstSource(analyse, detectors, file) != []
  {
    hide FirstSource, Filter;
    FoundIff(analyse, detectors, file);
    FoundIff(analyse, Filter(Surviving(removed), detectors), file);
    forall d { SurvivorsIff(detectors, removed, d); }
  }

  /** The guarantee of exclusions, end to end: after excluding detectors, every check reports either
      nothing but skips, because a prerequisite is disabled, or exactly what it reported before.
      Only the latter needs that no prerequisite detector was masked by an excluded one and that no file the
      check looks up was recognised by excluded detectors only. */
  lemma ExclusionIsConservative(m: Matcher, analyse: Analyser, detectors: seq<Detector>, removed: set<Detector>,
                                files: seq<string>, inputs: seq<PolicyInput>, discovered: set<string>, check: Check)
    requires Honest(analyse)
    requires removed * Prerequisites(check.evaluator) == {} ==>
               && NothingUnmasked(analyse, detectors, removed, Prerequisites(check.evaluator), files)
               && LookupsKept(m, analyse, detectors, removed, files,
                              ContextOf(Scanned(analyse, detectors, files), inputs, discovered), check.evaluator)
    ensures var before := ContextOf(Scanned(analyse, detectors, files), inputs, discovered);
            var after := ContextOf(Scanned(analyse, Filter(Surviving(removed), detectors), files), inputs, discovered);
            var reported := Reported(m, after, check, removed);
            if removed * Prerequisites(check.evaluator) == {} then reported == OutcomeOf(m, before, check)
            else reported.findings == [] && reported.runs != [] && forall run :: run in reported.runs ==> run.status.Skipped?
  {
    hide OutcomeOf, ContextOf, Prerequisites, Scanned, SameLookups, LookupsKept, NothingUnmasked, SkippedSubjects, Reported;
    var survivors := Filter(Surviving(removed), detectors);
    var after := ContextOf(Scanned(analyse, survivors, files), inputs, discovered);
    DisabledPrerequisiteOnlySkips(m, after, check, removed);
    if removed * Prerequisites(check.evaluator) == {} {
      ExclusionKeepsEvidence(analyse, detectors, removed, Prerequisites(check.evaluator), files);
      ExclusionKeepsLookups(m, analyse, detectors, removed, files,
                            ContextOf(Scanned(analyse, detectors, files), inputs, discovered), check.evaluator);
      OutcomeUnchanged(m, Scanned(analyse, detectors, files), Scanned(analyse, survivors, files), inputs, discovered, check);
    }
  }

  // ----- a simpler condition -----

  predicate Recognises(analyse: Analyser, detectors: seq<Detector>, some: set<Detector>, file: string) {
    exists k :: 0 <= k < |detectors| && detectors[k] in some && analyse(file, detectors[k]).Some?
  }

  /** No removed detector recognises a file that a prerequisite detector recognises. */
  predicate NoOverlap(analyse: Analyser, detectors: seq<Detector>, removed: set<Detector>,
                      prerequisites: set<Detector>, files: seq<string>) {
    forall file :: file in files && Recognises(analyse, detectors, removed, file) ==>
      !Recognises(analyse, detectors, prerequisites, file)
  }

  /** Nor a file that the check looks up. */
  ghost predicate LookupsSpared(m: Matcher, analyse: Analyser, detectors: seq<Detector>, removed: set<Detector>,
                                ctx: Context, evaluator: Evaluator) {
    forall path :: LooksUp(m, ctx, evaluator, path) ==> !Recognises(analyse, detectors, removed, path)
  }

  lemma {:induction false} FirstRecognises(analyse: Analyser, detectors: seq<Detector>, some: set<Detector>, file: string)
    requires Honest(analyse)
    ensures var found := FirstSource(analyse, detectors, file);
            found != [] && found[0].detector in some ==> Recognises(analyse, detectors, some, file)
  {
    if detectors != [] {
      FirstRecognises(analyse, detectors[1..], some, file);
      if analyse(file, detectors[0]).None? && Recognises(analyse, detectors[1..], some, file) {
        var k :| 0 <= k < |detectors[1..]| && detectors[1..][k] in some && analyse(file, detectors[1..][k]).Some?;
        assert detectors[k + 1] in some;
      }
    }
  }

  lemma SurvivorRecognises(analyse: Analyser, detectors: seq<Detector>, removed: set<Detector>, some: set<Detector>, file: string)
    ensures Recognises(analyse, Filter(Surviving(removed), detectors), some, file) ==> Recognises(analyse, detectors, some, file)
  {
    var survivors := Filter(Surviving(removed), detectors);
    if k :| 0 <= k < |survivors| && survivors[k] in some && analyse(file, survivors[k]).Some? {
      FlatMapMember(Only(Surviving(removed)), detectors, survivors[k]);
      assert survivors[k] in survivors;
      var d :| d in detectors && survivors[k] in Only(Surviving(removed))(d);
      var j :| 0 <= j < |detectors| && detectors[j] == d;
      assert detectors[j] in some;
    }
  }

  lemma NoOverlapUnmasksNothing(analyse: Analyser, detectors: seq<Detector>, removed: set<Detector>,
                                prerequisites: set<Detector>, files: seq<string>)
    requires Honest(analyse) && NoOverlap(analyse, detectors, removed, prerequisites, files)
    ensures NothingUnmasked(analyse, detectors, removed, prerequisites, files)
  {
    hide FirstSource, Filter, Recognises, Honest;
    var survivors := Filter(Surviving(removed), detectors);
    forall file | file in files ensures !Unmasked(analyse, detectors, removed, prerequisites, file) {
      FirstRecognises(analyse, detectors, removed, file);
      FirstRecognises(analyse, survivors, prerequisites, file);
      SurvivorRecognises(analyse, detectors, removed, prerequisites, file);
    }
  }

  lemma SparedLookupsKept(m: Matcher, analyse: Analyser, detectors: seq<Detector>, removed: set<Detector>,
                          files: seq<string>, ctx: Context, evaluator: Evaluator)
    requires LookupsSpared(m, analyse, detectors, removed, ctx, evaluator)
    ensures LookupsKept(m, analyse, detectors, removed, files, ctx, evaluator)
  {
    hide LooksUp;
    forall path | LooksUp(m, ctx, evaluator, path) ensures !Lost(analyse, detectors, removed, path) {
      if d :| d in detectors && analyse(path, d).Some? {
        var k :| 0 <= k < |detectors| && detectors[k] == d;
        assert !Recognises(analyse, detectors, removed, path);
      }
    }
  }

  /** The same guarantee from a simpler condition: where no prerequisite is excluded, no
      excluded detector recognises a file that a prerequisite detector recognises or that the check looks up. */
  lemma SparedExclusionIsConservative(m: Matcher, analyse: Analyser, detectors: seq<Detector>, removed: set<Detector>,
                                      files: seq<string>, inputs: seq<PolicyInput>, discovered: set<string>, check: Check)
    requires Honest(analyse)
    requires removed * Prerequisites(check.evaluator) == {} ==>
               && NoOverlap(analyse, detectors, removed, Prerequisites(check.evaluator), files)
               && LookupsSpared(m, analyse, detectors, removed,
                                ContextOf(Scanned(analyse, detectors, files), inputs, discovered), check.evaluator)
    ensures var before := ContextOf(Scanned(analyse, detectors, files), inputs, discovered);
            var after := ContextOf(Scanned(analyse, Filter(Surviving(removed), detectors), files), inputs, discovered);
            var reported := Reported(m, after, check, removed);
            if removed * Prerequisites(check.evaluator) == {} then reported == OutcomeOf(m, before, check)
            else reported.findings == [] && reported.runs != [] && forall run :: run in reported.runs ==> run.status.Skipped?
  {
    hide OutcomeOf, ContextOf, Prerequisites, Scanned, LookupsKept, NothingUnmasked, Reported, Honest, NoOverlap, LookupsSpared;
    if removed * Prerequisites(check.evaluator) == {} {
      var ctx := ContextOf(Scanned(analyse, detectors, files), inputs, discovered);
      NoOverlapUnmasksNothing(analyse, detectors, removed, Prerequisites(check.evaluator), files);
      SparedLookupsKept(m, analyse, detectors, removed, files, ctx, check.evaluator);
    }
    ExclusionIsConservative(m, analyse, detectors, removed, files, inputs, discovered, check);
  }

  // ----- a masked prerequisite -----

  lemma OneFileScanned(analyse: Analyser, detectors: seq<Detector>, file: string)
    ensures Scanned(analyse, detectors, [file]) == FirstSource(analyse, detectors, file)
  {
    hide FirstSource;
    var f := Recognised(analyse, detectors);
    FlatMapCons(f, file, []);
    FlatMapNil(f);
    assert [file] + [] == [file];
  }

  lemma OneManifest(s: Source, inputs: seq<PolicyInput>, discovered: set<string>)
    ensures ContextOf([s], inputs, discovered).javascript == JsOf(s)
  {
    FlatMapCons(JsOf, s, []);
    FlatMapNil(JsOf);
    assert [s] + [] == [s];
    if JsOf(s) != [] { SortByOfOne(JsPath, JsOf(s)[0]); }
  }

  lemma NoManifestNoCompletion(m: Matcher, ctx: Context, check: string, subject: string)
    requires ctx.javascript == []
    ensures CheckRun(check, subject, Completed) !in ConflictRuns(m, ctx, check)
  {
    hide FailedRuns;
    FailedRunsAreFailed(ctx, check, Js);
    assert ProjectRoots(m, ctx) == {} && Sorted({}) == [];
  }

  lemma ManifestCompletes(m: Matcher, ctx: Context, check: string, x: JsManifest)
    requires x in ctx.javascript
    ensures CheckRun(check, ProjectSubject(OwnerRoot(m, ctx, x)), Completed) in ConflictRuns(m, ctx, check)
  {
    hide OwnerRoot, FailedRuns, FlatMap, Sorted, Increasing;
    var run := CheckRun(check, ProjectSubject(OwnerRoot(m, ctx, x)), Completed);
    var keys := Sorted(ProjectRoots(m, ctx));
    assert OwnerRoot(m, ctx, x) in keys && run in CompletedRun(check)(OwnerRoot(m, ctx, x));
    FlatMapMember(CompletedRun(check), keys, run);
  }

  /** Unmasking does change reports: wherever a detector outside the prerequisites comes first on a manifest,
      excluding it adds evidence and a completed run. */
  lemma MaskedPrerequisite(m: Matcher, analyse: Analyser, mask: Detector, file: string,
                           inputs: seq<PolicyInput>, discovered: set<string>, check: Check)
    requires Honest(analyse) && check.evaluator == LockfilesConflict && mask !in Prerequisites(LockfilesConflict)
    requires analyse(file, mask).Some? && analyse(file, Js).Some? && analyse(file, Js).value.js.Decoded?
    ensures var before := Scanned(analyse, [mask, Js], [file]);
            var after := Scanned(analyse, Filter(Surviving({mask}), [mask, Js]), [file]);
            && !NothingUnmasked(analyse, [mask, Js], {mask}, Prerequisites(LockfilesConflict), [file])
            && !SameEvidence(before, after, Prerequisites(LockfilesConflict))
            && OutcomeOf(m, ContextOf(before, inputs, discovered), check) != OutcomeOf(m, ContextOf(after, inputs, discovered), check)
  {
    var detectors := [mask, Js];
    assert mask != Js && analyse(file, mask).value.detector == mask && analyse(file, Js).value.detector == Js;
    hide FirstSource, Filter, FlatMap, ContextOf, OutcomeOf, Scanned, Honest, Prerequisites, SameEvidence, Unmasked;
    MaskedScans(analyse, mask, file);
    assert !NothingUnmasked(analyse, detectors, {mask}, Prerequisites(LockfilesConflict), [file]) by {
      assert file in [file];
    }
    assert {mask} * Prerequisites(LockfilesConflict) == {};
    ExclusionKeepsEvidence(analyse, detectors, {mask}, Prerequisites(LockfilesConflict), [file]);
    ManifestAppears(m, analyse(file, mask).value, analyse(file, Js).value, inputs, discovered, check);
  }

  lemma MaskedScans(analyse: Analyser, mask: Detector, file: string)
    requires Honest(analyse) && mask !in Prerequisites(LockfilesConflict)
    requires analyse(file, mask).Some? && analyse(file, Js).Some?
    ensures Scanned(analyse, [mask, Js], [file]) == [analyse(file, mask).value]
    ensures Scanned(analyse, Filter(Surviving({mask}), [mask, Js]), [file]) == [analyse(file, Js).value]
    ensures Unmasked(analyse, [mask, Js], {mask}, Prerequisites(LockfilesConflict), file)
  {
    var detectors := [mask, Js];
    FilterTail(Surviving({mask}), detectors);
    FilterTail(Surviving({mask}), [Js]);
    FilterNil(Surviving({mask}));
    assert detectors[1..] == [Js] && [Js][1..] == [];
    assert Filter(Surviving({mask}), detectors) == [Js];
    OneFileScanned(analyse, detectors, file);
    OneFileScanned(analyse, [Js], file);
    hide Filter, FlatMap, Scanned;
  }

  lemma ManifestAppears(m: Matcher, masked: Source, seen: Source, inputs: seq<PolicyInput>, discovered: set<string>, check: Check)
    requires check.evaluator == LockfilesConflict
    requires masked.detector != Js && seen.detector == Js && seen.js.Decoded?
    ensures OutcomeOf(m, ContextOf([masked], inputs, discovered), check) != OutcomeOf(m, ContextOf([seen], inputs, discovered), check)
  {
    hide ContextOf, ConflictRuns, ConflictFindings;
    OneManifest(masked, inputs, discovered);
    OneManifest(seen, inputs, discovered);
    var ca, cb := ContextOf([masked], inputs, discovered), ContextOf([seen], inputs, discovered);
    var x := JsOf(seen)[0];
    ManifestCompletes(m, cb, check.id, x);
    NoManifestNoCompletion(m, ca, check.id, ProjectSubject(OwnerRoot(m, cb, x)));
  }

  // ----- a looked-up file that is no longer recognised -----

  /** A Cargo application that has a lockfile, which no detector but `only` recognises. */
  ghost predicate LockedBy(analyse: Analyser, only: Detector, manifest: string) {
    var lock := JoinRoot(Dir(manifest), CARGO_LOCK);
    && only !in Prerequisites(CargoLockMissing)
    && analyse(manifest, RustCargo).Some? && analyse(lock, RustCargo).None? && analyse(lock, only).Some?
    && analyse(manifest, RustCargo).value.cargo.Decoded?
    && var facts := analyse(manifest, RustCargo).value.cargo.value;
       facts.hasDeps && facts.application && facts.hasPackage
  }

  lemma TwoFilesScanned(analyse: Analyser, detectors: seq<Detector>, a: string, b: string)
    ensures Scanned(analyse, detectors, [a, b]) == FirstSource(analyse, detectors, a) + FirstSource(analyse, detectors, b)
  {
    OneFileScanned(analyse, detectors, b);
    FlatMapCons(Recognised(analyse, detectors), a, [b]);
    assert [a] + [b] == [a, b];
    hide FirstSource, FlatMap;
  }

  lemma LockedScans(analyse: Analyser, only: Detector, manifest: string)
    requires Honest(analyse) && LockedBy(analyse, only, manifest)
    ensures var detectors, files := [RustCargo, only], [manifest, JoinRoot(Dir(manifest), CARGO_LOCK)];
            && Filter(Surviving({only}), detectors) == [RustCargo]
            && Scanned(analyse, detectors, files) == [analyse(manifest, RustCargo).value, analyse(files[1], only).value]
            && Scanned(analyse, [RustCargo], files) == [analyse(manifest, RustCargo).value]
  {
    var detectors, lock := [RustCargo, only], JoinRoot(Dir(manifest), CARGO_LOCK);
    FilterTail(Surviving({only}), detectors);
    FilterTail(Surviving({only}), [only]);
    FilterNil(Surviving({only}));
    assert detectors[1..] == [only] && [only][1..] == [] && [RustCargo][1..] == [];
    TwoFilesScanned(analyse, detectors, manifest, lock);
    TwoFilesScanned(analyse, [RustCargo], manifest, lock);
    hide Filter, FlatMap, Scanned, Dir, JoinRoot;
    assert FirstSource(analyse, detectors, lock) == FirstSource(analyse, [only], lock);
  }

  lemma OneCargoManifest(s: Source, more: seq<Source>, inputs: seq<PolicyInput>, discovered: set<string>)
    requires s.detector == RustCargo && s.cargo.Decoded? && forall t :: t in more ==> t.detector != RustCargo
    ensures ContextOf([s] + more, inputs, discovered).cargo == CargoOf(discovered)(s)
  {
    hide Dir, JoinRoot;
    FlatMapCons(CargoOf(discovered), s, more);
    NothingContributed(CargoOf(discovered), more);
    SortByOfOne(CargoPath, CargoOf(discovered)(s)[0]);
    hide FlatMap, SortBy;
    assert CargoOf(discovered)(s) + [] == CargoOf(discovered)(s);
  }

  lemma {:induction false} NothingContributed<S, T>(f: S -> seq<T>, xs: seq<S>)
    requires forall x :: x in xs ==> f(x) == []
    ensures FlatMap(f, xs) == []
  {
    if xs != [] { NothingContributed(f, Init(xs)); }
  }

  lemma LoneOwner(m: Matcher, ctx: Context, x: CargoManifest)
    requires ctx.cargo == [x]
    ensures CargoOwner(m, ctx, x) == x.root
  {
    hide Owner, FlatMap;
    OwnerIsSelfOrWorkspace(m, x.root, Elements(CargoSpaces(ctx.cargo)));
    if w :| w in Elements(CargoSpaces(ctx.cargo)) && w.root == CargoOwner(m, ctx, x) {
      FlatMapMember(CargoSpace, ctx.cargo, w);
    }
  }

  /** A lone Cargo application is reported exactly when its lockfile has no source. */
  lemma LoneApplication(m: Matcher, s: Source, more: seq<Source>, inputs: seq<PolicyInput>, discovered: set<string>, check: Check)
    requires check.evaluator == CargoLockMissing && s.detector == RustCargo && s.cargo.Decoded?
    requires s.cargo.value.hasDeps && s.cargo.value.application && s.cargo.value.hasPackage
    requires forall t :: t in more ==> t.detector != RustCargo
    ensures var root, outcome := Dir(s.path), OutcomeOf(m, ContextOf([s] + more, inputs, discovered), check);
            (exists f :: f in outcome.findings && f.subject == ProjectSubject(root)) <==>
            JoinRoot(root, CARGO_LOCK) !in PathMap([s] + more)
  {
    hide CargoRuns, CargoFindings, Dir, JoinRoot, PathMap, SortBy, CargoOwner, ProjectSubject;
    var ctx := ContextOf([s] + more, inputs, discovered);
    OneCargoManifest(s, more, inputs, discovered);
    var x := CargoOf(discovered)(s)[0];
    assert ctx.cargo == [x] && x in ctx.cargo;
    LoneOwner(m, ctx, x);
    SeenFrom(m, ctx, ctx.cargo, x);
    BuiltCargoRootsClean([s] + more, inputs, discovered);
    CargoFindingIff(m, ctx, check.id, x.root);
    hide CargoSeen;
  }

  /** So is losing a looked-up file: the evidence stays the same, but an application whose lockfile only the
      excluded detector recognised is reported after the exclusion and was not before. */
  lemma LostLockfile(m: Matcher, analyse: Analyser, only: Detector, manifest: string,
                     inputs: seq<PolicyInput>, discovered: set<string>, check: Check)
    requires Honest(analyse) && LockedBy(analyse, only, manifest) && check.evaluator == CargoLockMissing
    ensures var root := Dir(manifest);
            var files := [manifest, JoinRoot(root, CARGO_LOCK)];
            var before := Scanned(analyse, [RustCargo, only], files);
            var after := Scanned(analyse, Filter(Surviving({only}), [RustCargo, only]), files);
            var reported := OutcomeOf(m, ContextOf(before, inputs, discovered), check);
            var later := OutcomeOf(m, ContextOf(after, inputs, discovered), check);
            && SameEvidence(before, after, Prerequisites(CargoLockMissing)) && Lost(analyse, [RustCargo, only], {only}, files[1])
            && (forall f :: f in reported.findings ==> f.subject != ProjectSubject(root))
            && (exists f :: f in later.findings && f.subject == ProjectSubject(root))
  {
    hide FirstSource, Filter, FlatMap, ContextOf, OutcomeOf, Scanned, Dir, JoinRoot, PathMap, ProjectSubject;
    var lock := JoinRoot(Dir(manifest), CARGO_LOCK);
    var s, t := analyse(manifest, RustCargo).value, analyse(lock, only).value;
    LockedScans(analyse, only, manifest);
    assert s.path == manifest && t.path == lock && t.detector == only && manifest != lock;
    assert [s] + [t] == [s, t] && [s] + [] == [s];
    LoneApplication(m, s, [t], inputs, discovered, check);
    LoneApplication(m, s, [], inputs, discovered, check);
    PathMapHolds([s, t], lock);
    PathMapHolds([s], lock);
    assert only in [RustCargo, only];
    LastIrrelevant(s, t);
  }

  lemma LastIrrelevant(s: Source, t: Source)
    requires t.detector !in Prerequisites(CargoLockMissing)
    ensures SameEvidence([s, t], [s], Prerequisites(CargoLockMissing))
  {
    var p := DetectedBy(Prerequisites(CargoLockMissing));
    FilterLast(p, [s, t]);
    assert Init([s, t]) == [s] && Filter(p, [s]) + [] == Filter(p, [s]);
  }
}
