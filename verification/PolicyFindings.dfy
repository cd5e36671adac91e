/** What each finding says: check, subject, location and lockfile names, in terms of the scanned files. */
module PolicyFindings {
  import opened Text
  import opened Lists
  import opened Workspaces
  import opened Evidence
  import opened Reports
  import opened JavaScriptChecks
  import opened TomlChecks
  import opened Exclusions
  import opened Noninterference
  import opened PolicyOutcomes

  // ----- the reported manifest -----

  /** The package.json at the root, or else the member with the least path. */
  ghost predicate ManifestFor(m: Matcher, sources: seq<Source>, root: string, path: string) {
    if Known(sources, JoinRoot(root, "package.json")) then path == JoinRoot(root, "package.json")
    else exists s :: Member(m, sources, root, s) && path == s.path
                     && forall other :: Member(m, sources, root, other) ==> !Before(other.path, path)
  }

  lemma {:induction false} FirstMemberLeast(m: Matcher, ctx: Context, manifests: seq<JsManifest>, root: string) returns (x: JsManifest)
    requires root in Roots(m, ctx, manifests) && Ascending(JsPath, manifests)
    ensures x in manifests && OwnerRoot(m, ctx, x) == root && x.path == FirstMember(m, ctx, manifests, root)
    ensures forall y :: y in manifests && OwnerRoot(m, ctx, y) == root ==> !Before(y.path, x.path)
  {
    hide OwnerRoot;
    if OwnerRoot(m, ctx, manifests[0]) == root {
      x := manifests[0];
      BeforeTrichotomy(x.path, x.path);
      forall y | y in manifests ensures !Before(y.path, x.path) {
        var j :| 0 <= j < |manifests| && manifests[j] == y;
        assert j > 0 ==> !Before(JsPath(manifests[j]), JsPath(manifests[0]));
      }
    } else {
      assert manifests == [manifests[0]] + manifests[1..];
      assert Ascending(JsPath, manifests[1..]) by {
        forall i, j | 0 <= i < j < |manifests[1..]| ensures !Before(JsPath(manifests[1..][j]), JsPath(manifests[1..][i])) {
          assert !Before(JsPath(manifests[j + 1]), JsPath(manifests[i + 1]));
        }
      }
      x := FirstMemberLeast(m, ctx, manifests[1..], root);
    }
  }

  lemma ManifestIs(m: Matcher, sources: seq<Source>, inputs: seq<PolicyInput>, discovered: set<string>, root: string)
    requires CleanFiles(sources, inputs)
    requires var ctx := ContextOf(sources, inputs, discovered); root in ProjectRoots(m, ctx)
    ensures var ctx := ContextOf(sources, inputs, discovered); ManifestFor(m, sources, root, ManifestOf(m, ctx, ctx.javascript, root))
  {
    var ctx := ContextOf(sources, inputs, discovered);
    SortByAscends(JsPath, FlatMap(JsOf, sources));
    assert Ascending(JsPath, ctx.javascript);
    hide ContextOf, OwnerRoot, OwnedIn, Member, CleanFiles, Known, Ascending;
    KnownIff(sources, inputs, discovered, JoinRoot(root, "package.json"));
    if !Known(sources, JoinRoot(root, "package.json")) {
      var x := FirstMemberLeast(m, ctx, ctx.javascript, root);
      ManifestsSame(sources, inputs, discovered, x);
      var s :| s in sources && x in JsOf(s);
      MemberIff(m, sources, inputs, discovered, root, s);
      forall other | Member(m, sources, root, other) ensures !Before(other.path, x.path) {
        MemberManifest(m, sources, inputs, discovered, root, other);
      }
    }
  }

  lemma MemberManifest(m: Matcher, sources: seq<Source>, inputs: seq<PolicyInput>, discovered: set<string>, root: string, s: Source)
    requires CleanFiles(sources, inputs) && Member(m, sources, root, s)
    ensures var ctx := ContextOf(sources, inputs, discovered);
            exists y :: y in ctx.javascript && OwnerRoot(m, ctx, y) == root && y.path == s.path
  {
    var ctx := ContextOf(sources, inputs, discovered);
    MemberIff(m, sources, inputs, discovered, root, s);
    var y := JsOf(s)[0];
    ManifestsSame(sources, inputs, discovered, y);
    hide ContextOf, OwnerRoot, OwnedIn, CleanFiles;
    assert y in JsOf(s);
  }

  // ----- missing lockfiles -----

  /** The names a check accepts. */
  function AcceptedFor(manager: Manager): seq<string> {
    match manager
    case Npm => ["package-lock.json", "npm-shrinkwrap.json"]
    case Pnpm => ["pnpm-lock.yaml"]
    case Yarn => ["yarn.lock"]
    case Uv => ["uv.lock"]
    case Cargo => ["Cargo.lock"]
    case NoManager => []
  }

  /** A missing-lockfile finding names its check, a project, the project's manifest, and the lockfiles looked for. */
  lemma MissingFindingSays(m: Matcher, sources: seq<Source>, inputs: seq<PolicyInput>, discovered: set<string>, check: Check, f: Finding)
    requires CleanFiles(sources, inputs) && check.evaluator.LockfileMissing? && check.evaluator.manager in {Npm, Pnpm, Yarn}
    requires f in OutcomeOf(m, ContextOf(sources, inputs, discovered), check).findings
    ensures exists root, path ::
              HasProject(m, sources, root) && ManifestFor(m, sources, root, path)
              && f == Finding(check.id, Subject(root), [path], MissingLockfile(check.evaluator.manager, AcceptedFor(check.evaluator.manager)))
  {
    hide ContextOf, VerdictAt, OwnerRoot, Increasing, Sorted, ManifestOf, ManifestFor, Member, CleanFiles, FlatMap, Roots;
    var ctx, manager := ContextOf(sources, inputs, discovered), check.evaluator.manager;
    FlatMapMember(FindingAt(m, ctx, check.id, manager), Sorted(ProjectRoots(m, ctx)), f);
    var root :| root in Sorted(ProjectRoots(m, ctx)) && f in FindingAt(m, ctx, check.id, manager)(root);
    ProjectIff(m, sources, inputs, discovered, root);
    ManifestIs(m, sources, inputs, discovered, root);
  }

  // ----- conflicting lockfiles -----

  predicate IsLockAt(sources: seq<Source>, root: string, path: string) {
    Known(sources, path) &&
    exists name :: name in {"package-lock.json", "npm-shrinkwrap.json", "pnpm-lock.yaml", "yarn.lock"} && path == JoinRoot(root, name)
  }

  lemma LocksIff(sources: seq<Source>, inputs: seq<PolicyInput>, discovered: set<string>, root: string, path: string)
    ensures path in LockfilesAt(ContextOf(sources, inputs, discovered), root) <==> IsLockAt(sources, root, path)
  {
    hide ContextOf, Known, JoinRoot;
    KnownIff(sources, inputs, discovered, path);
    assert LockfileNames(Npm)[0] == "package-lock.json" && LockfileNames(Npm)[1] == "npm-shrinkwrap.json";
    assert LockfileNames(Pnpm)[0] == "pnpm-lock.yaml" && LockfileNames(Yarn)[0] == "yarn.lock";
  }

  /** A conflict finding names its check, a project, the manifest and all lockfiles at the root in order, and their managers. */
  lemma ConflictFindingSays(m: Matcher, sources: seq<Source>, inputs: seq<PolicyInput>, discovered: set<string>, check: Check, f: Finding)
    requires CleanFiles(sources, inputs) && check.evaluator.LockfilesConflict?
    requires f in OutcomeOf(m, ContextOf(sources, inputs, discovered), check).findings
    ensures exists root, path, locks, families ::
              && HasProject(m, sources, root) && ManifestFor(m, sources, root, path)
              && f == Finding(check.id, Subject(root), [path] + locks, ConflictingLockfiles(families, locks))
              && Increasing(locks) && (forall p :: p in locks <==> IsLockAt(sources, root, p))
              && (forall manager :: manager in families <==> LockedFor(sources, root, manager))
  {
    hide ContextOf, OwnerRoot, Increasing, Sorted, ManifestOf, ManifestFor, Member, CleanFiles, FlatMap, Roots, LockManagers, LockfilesAt,
         IsLockAt, LockedFor;
    var ctx := ContextOf(sources, inputs, discovered);
    FlatMapMember(ConflictAt(m, ctx, check.id), Sorted(ProjectRoots(m, ctx)), f);
    var root :| root in Sorted(ProjectRoots(m, ctx)) && f in ConflictAt(m, ctx, check.id)(root);
    ProjectIff(m, sources, inputs, discovered, root);
    ManifestIs(m, sources, inputs, discovered, root);
    var locks, families := Sorted(LockfilesAt(ctx, root)), LockManagers(ctx, root);
    forall p ensures p in locks <==> IsLockAt(sources, root, p) { LocksIff(sources, inputs, discovered, root, p); }
    forall manager ensures manager in families <==> LockedFor(sources, root, manager) { LockedIff(sources, inputs, discovered, root, manager); }
    assert f == Finding(check.id, Subject(root), [ManifestOf(m, ctx, ctx.javascript, root)] + locks, ConflictingLockfiles(families, locks));
  }

  // ----- Cargo and uv -----

  /** The Cargo.toml at the root, or else the application with the least path. */
  ghost predicate CargoManifestFor(m: Matcher, sources: seq<Source>, discovered: set<string>, root: string, path: string) {
    if Known(sources, JoinRoot(root, "Cargo.toml")) then path == JoinRoot(root, "Cargo.toml")
    else exists s :: Application(m, sources, discovered, root, s) && path == s.path
                     && forall other :: Application(m, sources, discovered, root, other) ==> !Before(other.path, path)
  }

  lemma CargoFindingSays(m: Matcher, sources: seq<Source>, inputs: seq<PolicyInput>, discovered: set<string>, check: Check, f: Finding)
    requires CleanFiles(sources, inputs) && check.evaluator.CargoLockMissing?
    requires f in OutcomeOf(m, ContextOf(sources, inputs, discovered), check).findings
    ensures exists root, path ::
              CargoManifestFor(m, sources, discovered, root, path)
              && f == Finding(check.id, Subject(root), [path], MissingLockfile(Workspaces.Cargo, AcceptedFor(Workspaces.Cargo)))
  {
    hide ContextOf, CargoOwner, CargoSeen, Application, CleanFiles, Known, JoinRoot, CargoCounts, CargoFindingAt;
    var ctx := ContextOf(sources, inputs, discovered);
    CargoAscends(sources, inputs, discovered);
    var n := CargoFindingFrom(m, ctx, check.id, f);
    var root := CargoOwner(m, ctx, ctx.cargo[n]);
    KnownIff(sources, inputs, discovered, JoinRoot(root, "Cargo.toml"));
    FirstApplication(m, sources, inputs, discovered, n);
  }

  lemma CargoAscends(sources: seq<Source>, inputs: seq<PolicyInput>, discovered: set<string>)
    ensures Ascending(CargoPath, ContextOf(sources, inputs, discovered).cargo)
  {
    SortByAscends(CargoPath, FlatMap(CargoOf(discovered), sources));
    hide FlatMap, SortBy, Ascending;
  }

  lemma CargoFindingFrom(m: Matcher, ctx: Context, check: string, f: Finding) returns (n: nat)
    requires f in CargoFindings(m, ctx, check)
    ensures n < |ctx.cargo| && CargoCounts(ctx.cargo[n]) && ctx.cargo[n].application
    ensures var root := CargoOwner(m, ctx, ctx.cargo[n]);
            var path := if ctx.Holds(JoinRoot(root, "Cargo.toml")) then JoinRoot(root, "Cargo.toml") else ctx.cargo[n].path;
            && root !in CargoSeen(m, ctx, ctx.cargo[..n])
            && f == Finding(check, Subject(root), [path], MissingLockfile(Workspaces.Cargo, ["Cargo.lock"]))
  {
    hide CargoOwner, FlatMap, CargoSeen, JoinRoot;
    FlatMapMember(CargoFindingAt(m, ctx, check), Indices(|ctx.cargo|), f);
    n :| n in Indices(|ctx.cargo|) && f in CargoFindingAt(m, ctx, check)(n);
  }

  lemma NotSeenBefore(m: Matcher, ctx: Context, n: nat, y: CargoManifest)
    requires n <= |ctx.cargo| && CargoCounts(y) && y.application && CargoOwner(m, ctx, y) !in CargoSeen(m, ctx, ctx.cargo[..n])
    ensures y !in ctx.cargo[..n]
  {
    var seen := ctx.cargo[..n];
    if y in seen { SeenFrom(m, ctx, seen, y); }
  }

  lemma NotBeforeIn(cargo: seq<CargoManifest>, n: nat, y: CargoManifest)
    requires n < |cargo| && Ascending(CargoPath, cargo) && y in cargo && y !in cargo[..n]
    ensures !Before(y.path, cargo[n].path)
  {
    BeforeTrichotomy(y.path, y.path);
    var k :| 0 <= k < |cargo| && cargo[k] == y;
    var earlier := cargo[..n];
    assert forall i :: 0 <= i < n ==> earlier[i] in earlier && earlier[i] == cargo[i];
    assert k > n ==> !Before(CargoPath(cargo[k]), CargoPath(cargo[n]));
  }

  lemma FirstApplication(m: Matcher, sources: seq<Source>, inputs: seq<PolicyInput>, discovered: set<string>, n: nat)
    requires CleanFiles(sources, inputs)
    requires var ctx := ContextOf(sources, inputs, discovered);
             && n < |ctx.cargo| && Ascending(CargoPath, ctx.cargo) && CargoCounts(ctx.cargo[n]) && ctx.cargo[n].application
             && CargoOwner(m, ctx, ctx.cargo[n]) !in CargoSeen(m, ctx, ctx.cargo[..n])
    ensures var ctx := ContextOf(sources, inputs, discovered);
            var root, x := CargoOwner(m, ctx, ctx.cargo[n]), ctx.cargo[n];
            && (exists s :: Application(m, sources, discovered, root, s) && x.path == s.path)
            && forall other :: Application(m, sources, discovered, root, other) ==> !Before(other.path, x.path)
  {
    hide ContextOf, CargoOwner, CargoSeen, Application, CleanFiles, CargoCounts, Ascending;
    var ctx := ContextOf(sources, inputs, discovered);
    var x := ctx.cargo[n];
    var root := CargoOwner(m, ctx, x);
    CargoManifestIff(sources, inputs, discovered, x);
    var s :| s in sources && x in CargoOf(discovered)(s);
    assert x == CargoOf(discovered)(s)[0];
    ApplicationHere(m, sources, inputs, discovered, root, s);
    forall other | Application(m, sources, discovered, root, other) ensures !Before(other.path, x.path) {
      ApplicationIsSource(m, sources, discovered, root, other);
      ApplicationHere(m, sources, inputs, discovered, root, other);
      var y := CargoOf(discovered)(other)[0];
      assert y in CargoOf(discovered)(other);
      CargoManifestIff(sources, inputs, discovered, y);
      NotSeenBefore(m, ctx, n, y);
      NotBeforeIn(ctx.cargo, n, y);
    }
  }

  /** A uv finding is located at the pyproject file of its root. */
  lemma UvFindingSays(m: Matcher, sources: seq<Source>, inputs: seq<PolicyInput>, discovered: set<string>, check: Check, f: Finding)
    requires check.evaluator.UvLockMissing? && f in OutcomeOf(m, ContextOf(sources, inputs, discovered), check).findings
    ensures exists own :: own in inputs && own.uv.Decoded?
              && f == Finding(check.id, Subject(Dir(own.path)), [own.path], MissingLockfile(Uv, AcceptedFor(Uv)))
  {
    hide ContextOf, Dir, UvFindings;
    var ctx := ContextOf(sources, inputs, discovered);
    var x := UvFindingFrom(m, ctx, check.id, f);
    UvManifestIff(sources, inputs, discovered, x);
    var own :| own in inputs && x in UvOf(own);
  }

  lemma UvFindingFrom(m: Matcher, ctx: Context, check: string, f: Finding) returns (x: UvManifest)
    requires f in UvFindings(m, ctx, check)
    ensures x in ctx.uv && f == Finding(check, Subject(x.root), [x.path], MissingLockfile(Uv, ["uv.lock"]))
  {
    hide UvProjects, FlatMap, UvFindingAt;
    FlatMapMember(UvFindingAt(ctx, check), UvProjects(m, ctx, ctx.uv), f);
    var root :| root in UvProjects(m, ctx, ctx.uv) && f in UvFindingAt(ctx, check)(root);
    x := UvFindingAtRoot(ctx, check, root, f);
  }

  lemma UvFindingAtRoot(ctx: Context, check: string, root: string, f: Finding) returns (x: UvManifest)
    requires f in UvFindingAt(ctx, check)(root)
    ensures x in ctx.uv && f == Finding(check, Subject(x.root), [x.path], MissingLockfile(Uv, ["uv.lock"]))
  {
    hide FirstAt, JoinRoot;
    FirstAtIs(ctx.uv, root);
    x := FirstAt(ctx.uv, root).value;
  }
}
