/** The uv and Cargo missing-lockfile evaluators. */
module TomlChecks {
  import opened Text
  import opened Lists
  import opened Workspaces
  import opened Evidence
  import opened Reports

  // ----- uv -----

  const UV_LOCK := "uv.lock"

  function UvSpace(x: UvManifest): seq<Workspace> {
    if x.workspaces != [] then [Workspace(x.root, x.workspaces, Uv)] else []
  }

  function UvSpaces(manifests: seq<UvManifest>): seq<Workspace> { FlatMap(UvSpace, manifests) }

  ghost function UvOwner(m: Matcher, ctx: Context, x: UvManifest): string {
    Owner(m, x.root, Elements(UvSpaces(ctx.uv)))
  }

  function FirstAt(manifests: seq<UvManifest>, root: string): Option<UvManifest> {
    if manifests == [] then None
    else if manifests[0].root == root then Some(manifests[0])
    else FirstAt(manifests[1..], root)
  }

  /** A manifest counts when it declares dependencies and uv manages the project that owns it. */
  ghost predicate UvCounts(m: Matcher, ctx: Context, x: UvManifest) {
    var owner := UvOwner(m, ctx, x);
    var first := FirstAt(ctx.uv, owner);
    x.hasDeps && if owner != x.root && first.Some? then first.value.managed else x.managed
  }

  ghost function UvProjects(m: Matcher, ctx: Context, manifests: seq<UvManifest>): seq<string> {
    if manifests == [] then []
    else
      var before, x := UvProjects(m, ctx, Init(manifests)), Last(manifests);
      if UvCounts(m, ctx, x) && UvOwner(m, ctx, x) !in before then before + [UvOwner(m, ctx, x)] else before
  }

  function UvFinding(check: string, root: string, manifest: string): Finding {
    Finding(check, ProjectSubject(root), [manifest], MissingLockfile(Uv, [UV_LOCK]))
  }

  predicate UvUnlocked(ctx: Context, root: string) { !ctx.Holds(JoinRoot(root, UV_LOCK)) }

  function UvFindingAt(ctx: Context, check: string): string -> seq<Finding> {
    (root: string) =>
      var first := FirstAt(ctx.uv, root);
      if !UvUnlocked(ctx, root) || first.None? then [] else [UvFinding(check, root, first.value.path)]
  }

  ghost function UvRuns(m: Matcher, ctx: Context, check: string): seq<CheckRun> {
    FailedRuns(ctx, check, PythonPyproject) + FlatMap(CompletedRun(check), UvProjects(m, ctx, ctx.uv))
  }

  ghost function UvFindings(m: Matcher, ctx: Context, check: string): seq<Finding> {
    FlatMap(UvFindingAt(ctx, check), UvProjects(m, ctx, ctx.uv))
  }

  lemma {:induction false} FirstAtFinds(manifests: seq<UvManifest>, x: UvManifest)
    requires x in manifests
    ensures FirstAt(manifests, x.root).Some? && FirstAt(manifests, x.root).value in manifests
  {
    if manifests[0].root != x.root {
      assert x in manifests[1..];
      FirstAtFinds(manifests[1..], x);
    }
  }

  /** Every owner has a manifest of its own, so the reported location is always the owner's. */
  lemma UvOwnerHasManifest(m: Matcher, ctx: Context, x: UvManifest)
    requires x in ctx.uv
    ensures FirstAt(ctx.uv, UvOwner(m, ctx, x)).Some?
  {
    hide Owner;
    var spaces := UvSpaces(ctx.uv);
    OwnerIsSelfOrWorkspace(m, x.root, Elements(spaces));
    if UvOwner(m, ctx, x) == x.root {
      FirstAtFinds(ctx.uv, x);
    } else {
      var w :| w in spaces && w.root == UvOwner(m, ctx, x);
      FlatMapMember(UvSpace, ctx.uv, w);
      var y :| y in ctx.uv && w in UvSpace(y);
      FirstAtFinds(ctx.uv, y);
    }
  }

  method FindFirstAt(manifests: seq<UvManifest>, root: string) returns (first: Option<UvManifest>)
    ensures first == FirstAt(manifests, root)
  {
    for n := 0 to |manifests|
      invariant FirstAt(manifests, root) == FirstAt(manifests[n..], root)
    {
      assert manifests[n..][0] == manifests[n] && manifests[n..][1..] == manifests[n + 1..];
      if manifests[n].root == root {
        return Some(manifests[n]);
      }
    }
    return None;
  }

  method UvWorkspaces(manifests: seq<UvManifest>) returns (spaces: seq<Workspace>)
    ensures spaces == UvSpaces(manifests)
  {
    spaces := [];
    for n := 0 to |manifests|
      invariant spaces == FlatMap(UvSpace, manifests[..n])
    {
      FlatMapStep(UvSpace, manifests, n);
      if |manifests[n].workspaces| > 0 {
        spaces := spaces + [Workspace(manifests[n].root, manifests[n].workspaces, Uv)];
      }
    }
    assert manifests[..|manifests|] == manifests;
  }

  method UvSelect(m: Matcher, ctx: Context, x: UvManifest, spaces: seq<Workspace>) returns (counts: bool, owner: string)
    requires spaces == UvSpaces(ctx.uv)
    ensures counts == UvCounts(m, ctx, x) && owner == UvOwner(m, ctx, x)
  {
    owner := WorkspaceOwner(m, x.root, spaces);
    if !x.hasDeps {
      return false, owner;
    }
    var managed := x.managed;
    if owner != x.root {
      var candidate := FindFirstAt(ctx.uv, owner);
      if candidate.Some? {
        managed := candidate.value.managed;
      }
    }
    counts := managed;
  }

  lemma UvProjectsStep(m: Matcher, ctx: Context, n: nat)
    requires n < |ctx.uv|
    ensures var before, x := UvProjects(m, ctx, ctx.uv[..n]), ctx.uv[n];
            UvProjects(m, ctx, ctx.uv[..n + 1]) ==
            if UvCounts(m, ctx, x) && UvOwner(m, ctx, x) !in before then before + [UvOwner(m, ctx, x)] else before
  {
    assert Init(ctx.uv[..n + 1]) == ctx.uv[..n];
  }

  method JudgeUv(ctx: Context, check: string, manifest: UvManifest, ownerRoot: string)
    returns (findings: seq<Finding>)
    requires FirstAt(ctx.uv, ownerRoot).Some?
    ensures findings == UvFindingAt(ctx, check)(ownerRoot)
  {
    hide JoinRoot, FirstAt, ProjectSubject;
    var ownerManifest := manifest.path;
    var candidate := FindFirstAt(ctx.uv, ownerRoot);
    if candidate.Some? {
      ownerManifest := candidate.value.path;
    }
    findings := [];
    if !ctx.Holds(JoinRoot(ownerRoot, UV_LOCK)) {
      findings := [Finding(check, ProjectSubject(ownerRoot), [ownerManifest], MissingLockfile(Uv, [UV_LOCK]))];
    }
  }

  method EvaluateUVLockfile(m: Matcher, ctx: Context, check: string)
    returns (runs: seq<CheckRun>, findings: seq<Finding>)
    ensures runs == UvRuns(m, ctx, check) && findings == UvFindings(m, ctx, check)
  {
    hide UvCounts, UvOwner, UvSpaces, FailedRuns, UvProjects, UvFindingAt, FlatMap, FirstAt;
    runs := FailedRunsForDetector(ctx, check, PythonPyproject);
    findings := [];
    ghost var failures := runs;
    var seen: seq<string> := [];
    var spaces := UvWorkspaces(ctx.uv);
    NothingYet(m, ctx, check);
    for n := 0 to |ctx.uv|
      invariant seen == UvProjects(m, ctx, ctx.uv[..n])
      invariant runs == failures + FlatMap(CompletedRun(check), seen)
      invariant findings == FlatMap(UvFindingAt(ctx, check), seen)
    {
      UvProjectsStep(m, ctx, n);
      var counts, ownerRoot := UvSelect(m, ctx, ctx.uv[n], spaces);
      if !counts || ownerRoot in seen {
        continue;
      }
      UvOwnerHasManifest(m, ctx, ctx.uv[n]);
      ghost var before := seen;
      seen := seen + [ownerRoot];
      assert Init(seen) == before;
      FlatMapLast(CompletedRun(check), seen);
      FlatMapLast(UvFindingAt(ctx, check), seen);
      runs := runs + [CheckRun(check, ProjectSubject(ownerRoot), Completed)];
      var more := JudgeUv(ctx, check, ctx.uv[n], ownerRoot);
      findings := findings + more;
    }
    assert ctx.uv[..|ctx.uv|] == ctx.uv;
  }

  lemma NothingYet(m: Matcher, ctx: Context, check: string)
    ensures UvProjects(m, ctx, ctx.uv[..0]) == [] && FlatMap(CompletedRun(check), []) == []
    ensures FlatMap(UvFindingAt(ctx, check), []) == []
  {
  }

  /** One project per owner of a counting manifest, each exactly once. */
  lemma {:induction false} UvProjectsExact(m: Matcher, ctx: Context, manifests: seq<UvManifest>)
    ensures forall i, j :: 0 <= i < j < |UvProjects(m, ctx, manifests)| ==>
              UvProjects(m, ctx, manifests)[i] != UvProjects(m, ctx, manifests)[j]
    ensures forall root :: root in UvProjects(m, ctx, manifests) <==>
              exists x :: x in manifests && UvCounts(m, ctx, x) && UvOwner(m, ctx, x) == root
  {
    hide UvCounts, UvOwner;
    if manifests != [] {
      UvProjectsExact(m, ctx, Init(manifests));
      assert forall x :: x in manifests <==> x in Init(manifests) || x == Last(manifests);
    }
  }

  /** A uv finding is always about the owner of a counting manifest that has no uv.lock. */
  lemma UvFindingSound(m: Matcher, ctx: Context, check: string, f: Finding) returns (x: UvManifest)
    requires f in UvFindings(m, ctx, check)
    ensures x in ctx.uv && UvCounts(m, ctx, x) && f.subject == ProjectSubject(UvOwner(m, ctx, x))
    ensures UvUnlocked(ctx, UvOwner(m, ctx, x))
  {
    hide UvCounts, UvOwner, UvProjects, FlatMap, FirstAt, UvUnlocked, ProjectSubject;
    var projects := UvProjects(m, ctx, ctx.uv);
    UvProjectsExact(m, ctx, ctx.uv);
    FlatMapMember(UvFindingAt(ctx, check), projects, f);
    var root :| root in projects && f in UvFindingAt(ctx, check)(root);
    x :| x in ctx.uv && UvCounts(m, ctx, x) && UvOwner(m, ctx, x) == root;
  }

  /** And every such owner gets its finding, at its own manifest. */
  lemma UvFindingComplete(m: Matcher, ctx: Context, check: string, x: UvManifest)
    requires x in ctx.uv && UvCounts(m, ctx, x) && UvUnlocked(ctx, UvOwner(m, ctx, x))
    ensures FirstAt(ctx.uv, UvOwner(m, ctx, x)).Some?
    ensures UvFinding(check, UvOwner(m, ctx, x), FirstAt(ctx.uv, UvOwner(m, ctx, x)).value.path) in UvFindings(m, ctx, check)
  {
    hide UvCounts, UvOwner, UvProjects, FlatMap, FirstAt, UvUnlocked, UvFinding;
    var root := UvOwner(m, ctx, x);
    UvProjectsExact(m, ctx, ctx.uv);
    UvOwnerHasManifest(m, ctx, x);
    var f := UvFinding(check, root, FirstAt(ctx.uv, root).value.path);
    assert f in UvFindingAt(ctx, check)(root);
    FlatMapMember(UvFindingAt(ctx, check), UvProjects(m, ctx, ctx.uv), f);
  }

  // ----- Cargo -----

  const CARGO_LOCK := "Cargo.lock"
  const CARGO_TOML := "Cargo.toml"

  function CargoSpace(x: CargoManifest): seq<Workspace> {
    if x.workspaces != [] then [Workspace(x.root, x.workspaces, Workspaces.Cargo)] else []
  }

  function CargoSpaces(manifests: seq<CargoManifest>): seq<Workspace> { FlatMap(CargoSpace, manifests) }

  ghost function CargoOwner(m: Matcher, ctx: Context, x: CargoManifest): string {
    Owner(m, x.root, Elements(CargoSpaces(ctx.cargo)))
  }

  /** Declares dependencies and is not a virtual workspace root. */
  predicate CargoCounts(x: CargoManifest) { x.hasDeps && (x.hasPackage || x.workspaces == []) }

  ghost function CargoSeen(m: Matcher, ctx: Context, manifests: seq<CargoManifest>): set<string> {
    set x | x in manifests && CargoCounts(x) && x.application :: CargoOwner(m, ctx, x)
  }

  /** What manifest n adds: a skip for a library, a verdict for the first application of an owner. */
  ghost function CargoRunAt(m: Matcher, ctx: Context, check: string): nat -> seq<CheckRun> {
    (n: nat) =>
      if n >= |ctx.cargo| || !CargoCounts(ctx.cargo[n]) then []
      else if !ctx.cargo[n].application then [CheckRun(check, ProjectSubject(ctx.cargo[n].root), Skipped(ProjectRoleUnknown))]
      else if CargoOwner(m, ctx, ctx.cargo[n]) in CargoSeen(m, ctx, ctx.cargo[..n]) then []
      else [CheckRun(check, ProjectSubject(CargoOwner(m, ctx, ctx.cargo[n])), Completed)]
  }

  ghost function CargoFindingAt(m: Matcher, ctx: Context, check: string): nat -> seq<Finding> {
    (n: nat) =>
      if n >= |ctx.cargo| || !CargoCounts(ctx.cargo[n]) || !ctx.cargo[n].application then []
      else
        var owner := CargoOwner(m, ctx, ctx.cargo[n]);
        if owner in CargoSeen(m, ctx, ctx.cargo[..n]) || ctx.Holds(JoinRoot(owner, CARGO_LOCK)) then []
        else
          var location := if ctx.Holds(JoinRoot(owner, CARGO_TOML)) then JoinRoot(owner, CARGO_TOML) else ctx.cargo[n].path;
          [Finding(check, ProjectSubject(owner), [location], MissingLockfile(Workspaces.Cargo, [CARGO_LOCK]))]
  }

  function Indices(n: nat): (r: seq<nat>)
    ensures |r| == n && forall i :: 0 <= i < n ==> r[i] == i
  {
    if n == 0 then [] else Indices(n - 1) + [n - 1]
  }

  ghost function CargoRuns(m: Matcher, ctx: Context, check: string): seq<CheckRun> {
    FailedRuns(ctx, check, RustCargo) + FlatMap(CargoRunAt(m, ctx, check), Indices(|ctx.cargo|))
  }

  ghost function CargoFindings(m: Matcher, ctx: Context, check: string): seq<Finding> {
    FlatMap(CargoFindingAt(m, ctx, check), Indices(|ctx.cargo|))
  }

  method CargoWorkspaces(manifests: seq<CargoManifest>) returns (spaces: seq<Workspace>)
    ensures spaces == CargoSpaces(manifests)
  {
    spaces := [];
    for n := 0 to |manifests|
      invariant spaces == FlatMap(CargoSpace, manifests[..n])
    {
      FlatMapStep(CargoSpace, manifests, n);
      if |manifests[n].workspaces| > 0 {
        spaces := spaces + [Workspace(manifests[n].root, manifests[n].workspaces, Workspaces.Cargo)];
      }
    }
    assert manifests[..|manifests|] == manifests;
  }

  lemma CargoSeenStep(m: Matcher, ctx: Context, n: nat)
    requires n < |ctx.cargo|
    ensures CargoSeen(m, ctx, ctx.cargo[..n + 1]) == CargoSeen(m, ctx, ctx.cargo[..n])
              + if CargoCounts(ctx.cargo[n]) && ctx.cargo[n].application then {CargoOwner(m, ctx, ctx.cargo[n])} else {}
  {
    hide CargoOwner;
    assert forall x :: x in ctx.cargo[..n + 1] <==> x in ctx.cargo[..n] || x == ctx.cargo[n];
  }

  method FindCargoOwner(m: Matcher, ctx: Context, x: CargoManifest, spaces: seq<Workspace>) returns (owner: string)
    requires spaces == CargoSpaces(ctx.cargo)
    ensures owner == CargoOwner(m, ctx, x)
  {
    owner := WorkspaceOwner(m, x.root, spaces);
  }

  method JudgeCargo(m: Matcher, ctx: Context, check: string, n: nat, seen: set<string>, spaces: seq<Workspace>)
    returns (runs: seq<CheckRun>, findings: seq<Finding>, seenAfter: set<string>)
    requires n < |ctx.cargo| && ctx.Keyed() && spaces == CargoSpaces(ctx.cargo)
    requires seen == CargoSeen(m, ctx, ctx.cargo[..n])
    ensures seenAfter == CargoSeen(m, ctx, ctx.cargo[..n + 1])
    ensures runs == CargoRunAt(m, ctx, check)(n) && findings == CargoFindingAt(m, ctx, check)(n)
  {
    hide CargoOwner, CargoSeen, CargoSpaces;
    CargoSeenStep(m, ctx, n);
    var manifest := ctx.cargo[n];
    runs, findings, seenAfter := [], [], seen;
    if !manifest.hasDeps || (!manifest.hasPackage && |manifest.workspaces| > 0) {
      return;
    }
    var ownerRoot := FindCargoOwner(m, ctx, manifest, spaces);
    if !manifest.application {
      runs := [CheckRun(check, ProjectSubject(manifest.root), Skipped(ProjectRoleUnknown))];
      return;
    }
    if ownerRoot in seen {
      return;
    }
    seenAfter := seen + {ownerRoot};
    var ownerManifest := manifest.path;
    if ctx.PathAt(JoinRoot(ownerRoot, CARGO_TOML)) != "" {
      ownerManifest := JoinRoot(ownerRoot, CARGO_TOML);
    }
    runs := [CheckRun(check, ProjectSubject(ownerRoot), Completed)];
    if !ctx.Holds(JoinRoot(ownerRoot, CARGO_LOCK)) {
      findings := [Finding(check, ProjectSubject(ownerRoot), [ownerManifest], MissingLockfile(Workspaces.Cargo, [CARGO_LOCK]))];
    }
  }

  method EvaluateCargoLockfile(m: Matcher, ctx: Context, check: string)
    returns (runs: seq<CheckRun>, findings: seq<Finding>)
    requires ctx.Keyed()
    ensures runs == CargoRuns(m, ctx, check) && findings == CargoFindings(m, ctx, check)
  {
    hide CargoSpaces, CargoRunAt, CargoFindingAt, CargoOwner, FailedRuns;
    runs := FailedRunsForDetector(ctx, check, RustCargo);
    findings := [];
    ghost var failures := runs;
    var seen: set<string> := {};
    var spaces := CargoWorkspaces(ctx.cargo);
    for n := 0 to |ctx.cargo|
      invariant seen == CargoSeen(m, ctx, ctx.cargo[..n])
      invariant runs == failures + FlatMap(CargoRunAt(m, ctx, check), Indices(n))
      invariant findings == FlatMap(CargoFindingAt(m, ctx, check), Indices(n))
    {
      assert Init(Indices(n + 1)) == Indices(n);
      var moreRuns, moreFindings;
      moreRuns, moreFindings, seen := JudgeCargo(m, ctx, check, n, seen, spaces);
      runs := runs + moreRuns;
      findings := findings + moreFindings;
    }
  }

  /** Cargo roots come from `Dir`, which never yields ".". */
  ghost predicate CargoRootsClean(ctx: Context) { forall x :: x in ctx.cargo ==> x.root != "." }

  /** Every built context meets the condition. */
  lemma BuiltCargoRootsClean(sources: seq<Source>, inputs: seq<PolicyInput>, discovered: set<string>)
    ensures CargoRootsClean(ContextOf(sources, inputs, discovered))
  {
    var manifests := FlatMap(CargoOf(discovered), sources);
    SortByMembers(CargoPath, manifests);
    forall x | x in manifests ensures x.root != "." { FlatMapMember(CargoOf(discovered), sources, x); }
  }

  lemma CargoOwnersClean(m: Matcher, ctx: Context)
    requires CargoRootsClean(ctx)
    ensures forall x :: x in ctx.cargo ==> CargoOwner(m, ctx, x) != "."
  {
    hide Owner;
    var spaces := CargoSpaces(ctx.cargo);
    forall x | x in ctx.cargo ensures CargoOwner(m, ctx, x) != "." {
      OwnerIsSelfOrWorkspace(m, x.root, Elements(spaces));
      if w :| w in Elements(spaces) && w.root == CargoOwner(m, ctx, x) {
        FlatMapMember(CargoSpace, ctx.cargo, w);
      }
    }
  }

  /** A run that is no failure was added at some manifest. */
  lemma CargoRunFrom(m: Matcher, ctx: Context, check: string, run: CheckRun) returns (n: nat)
    requires run in CargoRuns(m, ctx, check) && !run.status.Failed?
    ensures n < |ctx.cargo| && run in CargoRunAt(m, ctx, check)(n)
  {
    hide CargoRunAt, FailedRuns, FlatMap, CargoOwner;
    FailedRunsAreFailed(ctx, check, RustCargo);
    FlatMapMember(CargoRunAt(m, ctx, check), Indices(|ctx.cargo|), run);
    n :| n in Indices(|ctx.cargo|) && run in CargoRunAt(m, ctx, check)(n);
  }

  lemma CargoRunMeans(m: Matcher, ctx: Context, check: string, n: nat, run: CheckRun)
    requires n < |ctx.cargo| && run in CargoRunAt(m, ctx, check)(n) && run.status.Completed?
    ensures CargoCounts(ctx.cargo[n]) && ctx.cargo[n].application
    ensures run.subject == ProjectSubject(CargoOwner(m, ctx, ctx.cargo[n]))
  {
    hide CargoOwner, CargoSeen, CargoCounts, ProjectSubject;
  }

  lemma SameSubject(a: string, b: string)
    requires a != "." && b != "." && ProjectSubject(a) == ProjectSubject(b)
    ensures a == b
  {
  }

  lemma CargoRunComes(m: Matcher, ctx: Context, check: string, root: string)
    requires root != "." && CargoRootsClean(ctx)
    requires CheckRun(check, ProjectSubject(root), Completed) in CargoRuns(m, ctx, check)
    ensures root in CargoSeen(m, ctx, ctx.cargo)
  {
    hide CargoRuns, CargoRunAt, CargoOwner, CargoSeen, CargoCounts, ProjectSubject, CargoRootsClean;
    var run := CheckRun(check, ProjectSubject(root), Completed);
    var n := CargoRunFrom(m, ctx, check, run);
    CargoRunMeans(m, ctx, check, n, run);
    CargoOwnersClean(m, ctx);
    SameSubject(root, CargoOwner(m, ctx, ctx.cargo[n]));
    SeenFrom(m, ctx, ctx.cargo, ctx.cargo[n]);
  }

  lemma CargoRunMade(m: Matcher, ctx: Context, check: string, root: string)
    requires root in CargoSeen(m, ctx, ctx.cargo)
    ensures CheckRun(check, ProjectSubject(root), Completed) in CargoRuns(m, ctx, check)
  {
    hide CargoOwner, FlatMap, CargoSeen, FailedRuns, ProjectSubject;
    assert ctx.cargo[..|ctx.cargo|] == ctx.cargo;
    var n := FirstCargo(m, ctx, root, |ctx.cargo|);
    var run := CheckRun(check, ProjectSubject(root), Completed);
    assert Indices(|ctx.cargo|)[n] == n && run in CargoRunAt(m, ctx, check)(n);
    FlatMapMember(CargoRunAt(m, ctx, check), Indices(|ctx.cargo|), run);
  }

  /** A Cargo owner is completed exactly when an application with dependencies belongs to it. */
  lemma CargoCompletedIff(m: Matcher, ctx: Context, check: string, root: string)
    requires root != "." && CargoRootsClean(ctx)
    ensures CheckRun(check, ProjectSubject(root), Completed) in CargoRuns(m, ctx, check) <==>
            root in CargoSeen(m, ctx, ctx.cargo)
  {
    hide CargoRuns, CargoSeen, CargoRootsClean, ProjectSubject;
    if CheckRun(check, ProjectSubject(root), Completed) in CargoRuns(m, ctx, check) {
      CargoRunComes(m, ctx, check, root);
    }
    if root in CargoSeen(m, ctx, ctx.cargo) {
      CargoRunMade(m, ctx, check, root);
    }
  }

  /** A Cargo owner is reported exactly when such an application belongs to it and it has no Cargo.lock. */
  lemma CargoFindingIff(m: Matcher, ctx: Context, check: string, root: string)
    requires root != "." && CargoRootsClean(ctx)
    ensures (exists f :: f in CargoFindings(m, ctx, check) && f.subject == ProjectSubject(root)) <==>
            root in CargoSeen(m, ctx, ctx.cargo) && !ctx.Holds(JoinRoot(root, CARGO_LOCK))
  {
    hide CargoOwner, CargoFindings, CargoSeen;
    CargoOwnersClean(m, ctx);
    if f :| f in CargoFindings(m, ctx, check) && f.subject == ProjectSubject(root) {
      var x := CargoFindingComes(m, ctx, check, f);
      SeenFrom(m, ctx, ctx.cargo, x);
    }
    if root in CargoSeen(m, ctx, ctx.cargo) && !ctx.Holds(JoinRoot(root, CARGO_LOCK)) {
      var f := CargoFindingMade(m, ctx, check, root);
    }
  }

  lemma CargoFindingComes(m: Matcher, ctx: Context, check: string, f: Finding) returns (x: CargoManifest)
    requires f in CargoFindings(m, ctx, check)
    ensures x in ctx.cargo && CargoCounts(x) && x.application && f.subject == ProjectSubject(CargoOwner(m, ctx, x))
    ensures !ctx.Holds(JoinRoot(CargoOwner(m, ctx, x), CARGO_LOCK))
  {
    hide CargoOwner, FlatMap, CargoSeen;
    FlatMapMember(CargoFindingAt(m, ctx, check), Indices(|ctx.cargo|), f);
    var n :| n in Indices(|ctx.cargo|) && f in CargoFindingAt(m, ctx, check)(n);
    x := ctx.cargo[n];
  }

  lemma CargoFindingMade(m: Matcher, ctx: Context, check: string, root: string) returns (f: Finding)
    requires root in CargoSeen(m, ctx, ctx.cargo) && !ctx.Holds(JoinRoot(root, CARGO_LOCK))
    ensures f in CargoFindings(m, ctx, check) && f.subject == ProjectSubject(root)
  {
    hide CargoOwner, FlatMap, CargoSeen;
    assert ctx.cargo[..|ctx.cargo|] == ctx.cargo;
    var n := FirstCargo(m, ctx, root, |ctx.cargo|);
    f := CargoFindingAt(m, ctx, check)(n)[0];
    assert Indices(|ctx.cargo|)[n] == n;
    FlatMapMember(CargoFindingAt(m, ctx, check), Indices(|ctx.cargo|), f);
  }

  lemma SeenFrom(m: Matcher, ctx: Context, manifests: seq<CargoManifest>, x: CargoManifest)
    requires x in manifests && CargoCounts(x) && x.application
    ensures CargoOwner(m, ctx, x) in CargoSeen(m, ctx, manifests)
  {
    hide CargoOwner;
  }

  lemma {:induction false} FirstCargo(m: Matcher, ctx: Context, root: string, bound: nat) returns (n: nat)
    requires bound <= |ctx.cargo| && root in CargoSeen(m, ctx, ctx.cargo[..bound])
    ensures n < bound && root !in CargoSeen(m, ctx, ctx.cargo[..n])
    ensures CargoCounts(ctx.cargo[n]) && ctx.cargo[n].application && CargoOwner(m, ctx, ctx.cargo[n]) == root
  {
    hide CargoOwner;
    if root in CargoSeen(m, ctx, ctx.cargo[..bound - 1]) {
      n := FirstCargo(m, ctx, root, bound - 1);
    } else {
      n := bound - 1;
      CargoSeenStep(m, ctx, n);
    }
  }

  /** No Cargo owner is reported twice. */
  lemma CargoReportedOnce(m: Matcher, ctx: Context, check: string, i: nat, j: nat, root: string)
    requires i < j < |ctx.cargo|
    requires CargoRootsClean(ctx)
    requires CheckRun(check, ProjectSubject(root), Completed) in CargoRunAt(m, ctx, check)(i)
    ensures root != "." ==> CheckRun(check, ProjectSubject(root), Completed) !in CargoRunAt(m, ctx, check)(j)
    ensures root != "." ==> forall f :: f in CargoFindingAt(m, ctx, check)(j) ==> f.subject != ProjectSubject(root)
  {
    CargoOwnersClean(m, ctx);
    hide CargoOwner;
    assert ctx.cargo[i] in ctx.cargo[..j] && ctx.cargo[i] in ctx.cargo && ctx.cargo[j] in ctx.cargo;
  }
}
