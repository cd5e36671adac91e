/** Exclusions under the built-in rules, where each policy file is recognised by one detector only. */
module BuiltInDetectors {
  import opened Text
  import opened Lists
  import opened Workspaces
  import opened Evidence
  import opened Reports
  import opened JavaScriptChecks
  import opened TomlChecks
  import opened Exclusions
  import opened Noninterference

  /** The file names of the default rules that policies are about, with their detectors. */
  function DetectorOf(name: string): Option<Detector> {
    match name
    case "package.json" => Some(Js)
    case "package-lock.json" => Some(JsNpmLock)
    case "npm-shrinkwrap.json" => Some(JsNpmShrinkwrap)
    case "pnpm-lock.yaml" => Some(JsPnpmLock)
    case "yarn.lock" => Some(JsYarn)
    case "pnpm-workspace.yaml" => Some(JsPnpmWorkspace)
    case "pnpm-workspace.yml" => Some(JsPnpmWorkspace)
    case ".yarnrc.yml" => Some(JsYarnrc)
    case "pyproject.toml" => Some(PythonPyproject)
    case "uv.lock" => Some(PythonUv)
    case "Cargo.toml" => Some(RustCargo)
    case "Cargo.lock" => Some(RustCargoLock)
    case _ => None
  }

  predicate Named(file: string, name: string) { file == name || HasSuffix(file, "/" + name) }

  /** A file with such a name is recognised by its own detector only, and such a detector recognises no other files. */
  ghost predicate BuiltIn(analyse: Analyser) {
    forall file, d :: analyse(file, d).Some? ==>
      && (forall name :: Named(file, name) && DetectorOf(name).Some? ==> DetectorOf(name) == Some(d))
      && ((exists name :: DetectorOf(name) == Some(d)) ==> exists name :: Named(file, name) && DetectorOf(name) == Some(d))
  }

  /** The file names an evaluator reads or looks for. */
  function FilesOf(evaluator: Evaluator): set<string> {
    match evaluator
    case LockfileMissing(_) =>
      {"package.json", "package-lock.json", "npm-shrinkwrap.json", "pnpm-lock.yaml", "yarn.lock", "pnpm-workspace.yaml",
       "pnpm-workspace.yml", ".yarnrc.yml"}
    case LockfilesConflict =>
      {"package.json", "package-lock.json", "npm-shrinkwrap.json", "pnpm-lock.yaml", "yarn.lock", "pnpm-workspace.yaml",
       "pnpm-workspace.yml"}
    case UvLockMissing => {"pyproject.toml", "uv.lock"}
    case CargoLockMissing => {"Cargo.toml", "Cargo.lock"}
  }

  /** The prerequisites of an evaluator are the detectors of its files, no more and no fewer. */
  lemma PrerequisitesAreReaders(evaluator: Evaluator, d: Detector)
    ensures d in Prerequisites(evaluator) <==> exists name :: name in FilesOf(evaluator) && DetectorOf(name) == Some(d)
  {
    match evaluator {
      case UvLockMissing => assert DetectorOf("pyproject.toml") == Some(PythonPyproject) && DetectorOf("uv.lock") == Some(PythonUv);
      case CargoLockMissing => assert DetectorOf("Cargo.toml") == Some(RustCargo) && DetectorOf("Cargo.lock") == Some(RustCargoLock);
      case _ => JavaScriptReaders(evaluator, d);
    }
  }

  lemma JavaScriptReaders(evaluator: Evaluator, d: Detector)
    requires evaluator.LockfileMissing? || evaluator.LockfilesConflict?
    ensures d in Prerequisites(evaluator) <==> exists name :: name in FilesOf(evaluator) && DetectorOf(name) == Some(d)
  {
    assert DetectorOf("package.json") == Some(Js) && DetectorOf("package-lock.json") == Some(JsNpmLock);
    assert DetectorOf("npm-shrinkwrap.json") == Some(JsNpmShrinkwrap) && DetectorOf("pnpm-lock.yaml") == Some(JsPnpmLock);
    assert DetectorOf("yarn.lock") == Some(JsYarn) && DetectorOf("pnpm-workspace.yaml") == Some(JsPnpmWorkspace);
    assert DetectorOf("pnpm-workspace.yml") == Some(JsPnpmWorkspace) && DetectorOf(".yarnrc.yml") == Some(JsYarnrc);
  }

  lemma JoinedIsNamed(root: string, name: string)
    ensures Named(JoinRoot(root, name), name)
  {
    if root != "" {
      Assoc(root, "/", name);
      assert (root + ("/" + name))[|root|..] == "/" + name;
    }
  }

  lemma LookedUpName(m: Matcher, ctx: Context, evaluator: Evaluator, path: string) returns (root: string, name: string)
    requires LooksUp(m, ctx, evaluator, path)
    ensures path == JoinRoot(root, name) && name in FilesOf(evaluator)
  {
    hide ProjectRoots, UvOwner, CargoOwner;
    match evaluator {
      case UvLockMissing =>
        var x :| x in ctx.uv && path == JoinRoot(UvOwner(m, ctx, x), UV_LOCK);
        root, name := UvOwner(m, ctx, x), "uv.lock";
      case CargoLockMissing =>
        var x :| x in ctx.cargo && (path == JoinRoot(CargoOwner(m, ctx, x), CARGO_LOCK) || path == JoinRoot(CargoOwner(m, ctx, x), CARGO_TOML));
        root := CargoOwner(m, ctx, x);
        name := if path == JoinRoot(root, CARGO_LOCK) then "Cargo.lock" else "Cargo.toml";
      case _ =>
        root :| root in ProjectRoots(m, ctx) && JsLookup(root, path);
        name := JsName(root, path);
    }
  }

  lemma JsName(root: string, path: string) returns (name: string)
    requires JsLookup(root, path)
    ensures path == JoinRoot(root, name) && name in FilesOf(LockfilesConflict)
  {
    hide JoinRoot;
    if path == JoinRoot(root, PACKAGE_JSON) {
      name := "package.json";
    } else {
      var manager, k :| (manager in LOCKFILE_MANAGERS && 0 <= k < |LockfileNames(manager)|
                         && path == JoinRoot(root, LockfileNames(manager)[k]));
      name := LockfileNames(manager)[k];
    }
  }

  lemma BuiltInNeverOverlap(analyse: Analyser, detectors: seq<Detector>, removed: set<Detector>, evaluator: Evaluator,
                            files: seq<string>)
    requires BuiltIn(analyse) && removed * Prerequisites(evaluator) == {}
    ensures NoOverlap(analyse, detectors, removed, Prerequisites(evaluator), files)
  {
    hide Prerequisites, FilesOf, Named, DetectorOf;
    Disjoint(removed, Prerequisites(evaluator));
    forall file | file in files && Recognises(analyse, detectors, removed, file)
      ensures !Recognises(analyse, detectors, Prerequisites(evaluator), file)
    {
      var k :| 0 <= k < |detectors| && detectors[k] in removed && analyse(file, detectors[k]).Some?;
      if j :| 0 <= j < |detectors| && detectors[j] in Prerequisites(evaluator) && analyse(file, detectors[j]).Some? {
        PrerequisitesAreReaders(evaluator, detectors[j]);
      }
    }
  }

  lemma BuiltInLookupsSpared(m: Matcher, analyse: Analyser, detectors: seq<Detector>, removed: set<Detector>, ctx: Context,
                             evaluator: Evaluator)
    requires BuiltIn(analyse) && removed * Prerequisites(evaluator) == {}
    ensures LookupsSpared(m, analyse, detectors, removed, ctx, evaluator)
  {
    hide Prerequisites, FilesOf, Named, LooksUp, DetectorOf, JoinRoot;
    Disjoint(removed, Prerequisites(evaluator));
    forall path | LooksUp(m, ctx, evaluator, path) ensures !Recognises(analyse, detectors, removed, path) {
      var root, name := LookedUpName(m, ctx, evaluator, path);
      JoinedIsNamed(root, name);
      FilesAreNamed(evaluator);
      PrerequisitesAreReaders(evaluator, DetectorOf(name).value);
    }
  }

  lemma FilesAreNamed(evaluator: Evaluator)
    ensures forall name :: name in FilesOf(evaluator) ==> DetectorOf(name).Some?
  {
  }

  lemma Disjoint(a: set<Detector>, b: set<Detector>)
    requires a * b == {}
    ensures forall d :: d in a ==> d !in b
  {
    assert forall d :: d in a && d in b <==> d in a * b;
  }

  predicate OnlySkips(outcome: Outcome) {
    outcome.findings == [] && outcome.runs != [] && forall run :: run in outcome.runs ==> run.status.Skipped?
  }

  /** Under the built-in rules, whatever is excluded: a check reports exactly what it reported before, or only
      skips, and the latter only when the detector of one of its own files is excluded. No finding is ever added. */
  lemma BuiltInExclusion(m: Matcher, analyse: Analyser, detectors: seq<Detector>, removed: set<Detector>,
                         files: seq<string>, inputs: seq<PolicyInput>, discovered: set<string>, check: Check)
    requires Honest(analyse) && BuiltIn(analyse)
    ensures var before := OutcomeOf(m, ContextOf(Scanned(analyse, detectors, files), inputs, discovered), check);
            var after := ContextOf(Scanned(analyse, Filter(Surviving(removed), detectors), files), inputs, discovered);
            var reported := Reported(m, after, check, removed);
            && (if exists name :: name in FilesOf(check.evaluator) && DetectorOf(name).Some? && DetectorOf(name).value in removed
                then OnlySkips(reported)
                else reported == before)
            && forall f :: f in reported.findings ==> f in before.findings
  {
    hide OutcomeOf, ContextOf, Prerequisites, Scanned, Filter, Reported, FilesOf, Honest, BuiltIn;
    var prerequisites := Prerequisites(check.evaluator);
    if removed * prerequisites == {} {
      BuiltInNeverOverlap(analyse, detectors, removed, check.evaluator, files);
      BuiltInLookupsSpared(m, analyse, detectors, removed, ContextOf(Scanned(analyse, detectors, files), inputs, discovered),
                           check.evaluator);
    }
    SparedExclusionIsConservative(m, analyse, detectors, removed, files, inputs, discovered, check);
    SharedIff(removed, check.evaluator);
  }

  lemma SharedIff(removed: set<Detector>, evaluator: Evaluator)
    ensures removed * Prerequisites(evaluator) != {} <==>
            exists name :: name in FilesOf(evaluator) && DetectorOf(name).Some? && DetectorOf(name).value in removed
  {
    hide Prerequisites, FilesOf, DetectorOf;
    if d :| d in removed * Prerequisites(evaluator) {
      PrerequisitesAreReaders(evaluator, d);
    }
    if name :| name in FilesOf(evaluator) && DetectorOf(name).Some? && DetectorOf(name).value in removed {
      PrerequisitesAreReaders(evaluator, DetectorOf(name).value);
      assert DetectorOf(name).value in removed * Prerequisites(evaluator);
    }
  }
}
