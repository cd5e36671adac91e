/** Detector exclusions: which checks they silence, and that they change nothing else. */
module Exclusions {
  import opened Text
  import opened Lists
  import opened Workspaces
  import opened Evidence
  import opened Reports
  import opened JavaScriptChecks
  import opened TomlChecks

  datatype Evaluator = LockfileMissing(manager: Manager) | LockfilesConflict | UvLockMissing | CargoLockMissing

  datatype Check = Check(id: string, evaluator: Evaluator)

  const JS_DETECTORS: set<Detector> := {Js, JsPnpmWorkspace, JsNpmLock, JsNpmShrinkwrap, JsPnpmLock, JsYarn}

  /** Discovery, accepted lockfiles, manager evidence and ownership an evaluator relies on. */
  function Prerequisites(evaluator: Evaluator): set<Detector> {
    match evaluator
    case LockfileMissing(_) => JS_DETECTORS + {JsYarnrc}
    case LockfilesConflict => JS_DETECTORS
    case UvLockMissing => {PythonPyproject, PythonUv}
    case CargoLockMissing => {RustCargo, RustCargoLock}
  }

  datatype Outcome = Outcome(runs: seq<CheckRun>, findings: seq<Finding>)

  ghost function OutcomeOf(m: Matcher, ctx: Context, check: Check): Outcome {
    match check.evaluator
    case LockfileMissing(manager) => Outcome(LockfileRuns(m, ctx, check.id, manager), LockfileFindings(m, ctx, check.id, manager))
    case LockfilesConflict => Outcome(ConflictRuns(m, ctx, check.id), ConflictFindings(m, ctx, check.id))
    case UvLockMissing => Outcome(UvRuns(m, ctx, check.id), UvFindings(m, ctx, check.id))
    case CargoLockMissing => Outcome(CargoRuns(m, ctx, check.id), CargoFindings(m, ctx, check.id))
  }

  // ----- skips for disabled prerequisites -----

  function ManifestRoots(ctx: Context, evaluator: Evaluator): set<string> {
    match evaluator
    case LockfileMissing(_) => (set x | x in ctx.javascript :: x.root) + (set w | w in ctx.spaces :: w.root)
    case LockfilesConflict => (set x | x in ctx.javascript :: x.root) + (set w | w in ctx.spaces :: w.root)
    case UvLockMissing => set x | x in ctx.uv :: x.root
    case CargoLockMissing => set x | x in ctx.cargo :: x.root
  }

  function ErrorRoots(ctx: Context, evaluator: Evaluator): set<string> {
    set e | e in ctx.parseErrors && e.detector in Prerequisites(evaluator) :: Dir(e.path)
  }

  /** Every project root the evaluator knows of, or the scan root when it knows none. */
  function SkippedSubjects(ctx: Context, evaluator: Evaluator): set<string> {
    var subjects := set root | root in ManifestRoots(ctx, evaluator) + ErrorRoots(ctx, evaluator) :: ProjectSubject(root);
    if subjects == {} then {"."} else subjects
  }

  function SkipAt(check: Check, removed: set<Detector>): string -> seq<CheckRun> {
    (subject: string) => [CheckRun(check.id, subject, Skipped(DetectorDisabled(removed)))]
  }

  ghost function DisabledRuns(ctx: Context, check: Check, disabled: set<Detector>): seq<CheckRun> {
    var removed := disabled * Prerequisites(check.evaluator);
    if removed == {} then [] else FlatMap(SkipAt(check, removed), Sorted(SkippedSubjects(ctx, check.evaluator)))
  }

  method DetectorDisabledRuns(ctx: Context, check: Check, disabled: seq<Detector>) returns (runs: seq<CheckRun>)
    ensures runs == DisabledRuns(ctx, check, Elements(disabled))
  {
    hide Increasing, Sorted, SkippedSubjects;
    var prerequisites := Prerequisites(check.evaluator);
    var removed: set<Detector> := {};
    for n := 0 to |disabled|
      invariant removed == Elements(disabled[..n]) * prerequisites
    {
      assert forall d :: d in disabled[..n + 1] <==> d in disabled[..n] || d == disabled[n];
      if disabled[n] in prerequisites {
        removed := removed + {disabled[n]};
      }
    }
    assert disabled[..|disabled|] == disabled;
    if |removed| == 0 {
      return [];
    }
    runs := [];
    var subjects := SkippedSubjects(ctx, check.evaluator);
    var keys := SortedKeys(subjects);
    for n := 0 to |keys|
      invariant runs == FlatMap(SkipAt(check, removed), keys[..n])
    {
      FlatMapStep(SkipAt(check, removed), keys, n);
      runs := runs + [CheckRun(check.id, keys[n], Skipped(DetectorDisabled(removed)))];
    }
    assert keys[..|keys|] == keys;
  }

  // ----- evaluating all checks -----

  ghost function Reported(m: Matcher, ctx: Context, check: Check, disabled: set<Detector>): Outcome {
    var skipped := DisabledRuns(ctx, check, disabled);
    if skipped != [] then Outcome(skipped, []) else OutcomeOf(m, ctx, check)
  }

  ghost function RunsReported(m: Matcher, ctx: Context, disabled: set<Detector>): Check -> seq<CheckRun> {
    (check: Check) => Reported(m, ctx, check, disabled).runs
  }

  ghost function FindingsReported(m: Matcher, ctx: Context, disabled: set<Detector>): Check -> seq<Finding> {
    (check: Check) => Reported(m, ctx, check, disabled).findings
  }

  method EvaluateCheck(m: Matcher, ctx: Context, check: Check) returns (runs: seq<CheckRun>, findings: seq<Finding>)
    requires ctx.Keyed()
    ensures Outcome(runs, findings) == OutcomeOf(m, ctx, check)
  {
    match check.evaluator {
      case LockfileMissing(manager) => runs, findings := EvaluateJavaScriptLockfile(m, ctx, check.id, manager);
      case LockfilesConflict => runs, findings := EvaluateConflictingJavaScriptLockfiles(m, ctx, check.id);
      case UvLockMissing => runs, findings := EvaluateUVLockfile(m, ctx, check.id);
      case CargoLockMissing => runs, findings := EvaluateCargoLockfile(m, ctx, check.id);
    }
  }

  method EvaluateChecks(m: Matcher, sources: seq<Source>, inputs: seq<PolicyInput>, discovered: set<string>,
                        checks: seq<Check>, disabled: seq<Detector>)
    returns (runs: seq<CheckRun>, findings: seq<Finding>)
    ensures runs == FlatMap(RunsReported(m, ContextOf(sources, inputs, discovered), Elements(disabled)), checks)
    ensures findings == FlatMap(FindingsReported(m, ContextOf(sources, inputs, discovered), Elements(disabled)), checks)
  {
    hide OutcomeOf, DisabledRuns, ContextOf;
    runs, findings := [], [];
    if |checks| == 0 {
      return;
    }
    var ctx := BuildEvaluationContext(sources, inputs, discovered);
    for n := 0 to |checks|
      invariant runs == FlatMap(RunsReported(m, ctx, Elements(disabled)), checks[..n])
      invariant findings == FlatMap(FindingsReported(m, ctx, Elements(disabled)), checks[..n])
    {
      FlatMapStep(RunsReported(m, ctx, Elements(disabled)), checks, n);
      FlatMapStep(FindingsReported(m, ctx, Elements(disabled)), checks, n);
      var skipped := DetectorDisabledRuns(ctx, checks[n], disabled);
      if |skipped| > 0 {
        runs := runs + skipped;
        continue;
      }
      var checkRuns, checkFindings := EvaluateCheck(m, ctx, checks[n]);
      runs := runs + checkRuns;
      findings := findings + checkFindings;
    }
    assert checks[..|checks|] == checks;
  }

  lemma SkipRunsMember(check: Check, removed: set<Detector>, keys: seq<string>, run: CheckRun)
    ensures run in FlatMap(SkipAt(check, removed), keys) <==>
            run.subject in keys && run == CheckRun(check.id, run.subject, Skipped(DetectorDisabled(removed)))
  {
    FlatMapMember(SkipAt(check, removed), keys, run);
    assert run in SkipAt(check, removed)(run.subject) <==>
      run == CheckRun(check.id, run.subject, Skipped(DetectorDisabled(removed)));
  }

  /** A disabled prerequisite turns the whole check into skips, at least one, and silences its findings;
      with none disabled the check runs as if nothing had been excluded. */
  lemma DisabledPrerequisiteOnlySkips(m: Matcher, ctx: Context, check: Check, disabled: set<Detector>)
    ensures var removed := disabled * Prerequisites(check.evaluator);
            var reported := Reported(m, ctx, check, disabled);
            if removed == {} then reported == OutcomeOf(m, ctx, check)
            else reported.findings == [] && reported.runs != []
                 && forall run :: run in reported.runs <==>
                      run.subject in SkippedSubjects(ctx, check.evaluator)
                      && run == CheckRun(check.id, run.subject, Skipped(DetectorDisabled(removed)))
  {
    hide OutcomeOf, Sorted, Increasing, SkipAt, FlatMap, SkippedSubjects, Prerequisites;
    var removed := disabled * Prerequisites(check.evaluator);
    if removed != {} {
      var keys := Sorted(SkippedSubjects(ctx, check.evaluator));
      forall run { SkipRunsMember(check, removed, keys, run); }
      var some := SomeSubject(ctx, check.evaluator);
      assert CheckRun(check.id, some, Skipped(DetectorDisabled(removed))) in FlatMap(SkipAt(check, removed), keys);
    }
  }

  lemma SomeSubject(ctx: Context, evaluator: Evaluator) returns (subject: string)
    ensures subject in SkippedSubjects(ctx, evaluator)
  {
    hide ManifestRoots, ErrorRoots;
    subject :| subject in SkippedSubjects(ctx, evaluator);
  }

  // ----- applying exclusions to a ruleset -----

  datatype Ruleset = Ruleset(detectors: seq<Detector>, checks: seq<Check>, disabled: seq<Detector>)

  function Surviving(removed: set<Detector>): Detector -> bool { (d: Detector) => d !in removed }

  function Removed(removed: set<Detector>): Detector -> bool { (d: Detector) => d in removed }

  function KeptCheck(ids: set<string>): Check -> bool { (c: Check) => c.id !in ids }

  /** The requested IDs as a set, or None when one of them is unknown. */
  method ResolveIDs<T(==)>(requested: seq<T>, known: set<T>) returns (ids: Option<set<T>>)
    ensures ids == if Elements(requested) <= known then Some(Elements(requested)) else None
  {
    var found: set<T> := {};
    for n := 0 to |requested|
      invariant found == Elements(requested[..n]) && found <= known
    {
      assert forall id :: id in requested[..n + 1] <==> id in requested[..n] || id == requested[n];
      if requested[n] !in known {
        assert requested[n] in Elements(requested);
        return None;
      }
      found := found + {requested[n]};
    }
    assert requested[..|requested|] == requested;
    return Some(found);
  }

  method SplitDetectors(removed: set<Detector>, r: Ruleset) returns (detectors: seq<Detector>, disabled: seq<Detector>)
    ensures detectors == Filter(Surviving(removed), r.detectors)
    ensures disabled == r.disabled + Filter(Removed(removed), r.detectors)
  {
    detectors, disabled := [], r.disabled;
    for n := 0 to |r.detectors|
      invariant detectors == Filter(Surviving(removed), r.detectors[..n])
      invariant disabled == r.disabled + Filter(Removed(removed), r.detectors[..n])
    {
      FlatMapStep(Only(Surviving(removed)), r.detectors, n);
      FlatMapStep(Only(Removed(removed)), r.detectors, n);
      if r.detectors[n] in removed {
        disabled := disabled + [r.detectors[n]];
      } else {
        detectors := detectors + [r.detectors[n]];
      }
    }
    assert r.detectors[..|r.detectors|] == r.detectors;
  }

  /** `Ruleset.Exclude`, with the preset members already added to `detectorIDs`; None on an unknown ID. */
  method Exclude(r: Ruleset, detectorIDs: seq<Detector>, checkIDs: seq<string>) returns (result: Option<Ruleset>)
    ensures result.Some? <==> Elements(detectorIDs) <= Elements(r.detectors)
                              && Elements(checkIDs) <= set c | c in r.checks :: c.id
    ensures result.Some? ==>
              && result.value.detectors == Filter(Surviving(Elements(detectorIDs)), r.detectors)
              && result.value.disabled == r.disabled + Filter(Removed(Elements(detectorIDs)), r.detectors)
              && result.value.checks == Filter(KeptCheck(Elements(checkIDs)), r.checks)
    ensures result.Some? ==>
              && Keeps(r.detectors, result.value.detectors, (d: Detector) => d !in detectorIDs)
              && Keeps(r.checks, result.value.checks, (c: Check) => c.id !in checkIDs)
              && r.disabled <= result.value.disabled
              && Keeps(r.detectors, result.value.disabled[|r.disabled|..], (d: Detector) => d in detectorIDs)
  {
    var removed := ResolveIDs(detectorIDs, set d | d in r.detectors);
    var dropped := ResolveIDs(checkIDs, set c | c in r.checks :: c.id);
    if removed.None? || dropped.None? {
      return None;
    }
    var detectors, disabled := SplitDetectors(removed.value, r);
    var checks := [];
    for n := 0 to |r.checks|
      invariant checks == Filter(KeptCheck(dropped.value), r.checks[..n])
    {
      FlatMapStep(Only(KeptCheck(dropped.value)), r.checks, n);
      if r.checks[n].id !in dropped.value {
        checks := checks + [r.checks[n]];
      }
    }
    assert r.checks[..|r.checks|] == r.checks;
    ghost var places := FilterKeeps(Surviving(removed.value), r.detectors, (d: Detector) => d !in detectorIDs);
    places := FilterKeeps(Removed(removed.value), r.detectors, (d: Detector) => d in detectorIDs);
    places := FilterKeeps(KeptCheck(dropped.value), r.checks, (c: Check) => c.id !in checkIDs);
    assert disabled[|r.disabled|..] == Filter(Removed(removed.value), r.detectors);
    return Some(Ruleset(detectors, checks, disabled));
  }

  /** Exclusion loses no detector and invents none. */
  lemma ExclusionPartitions(removed: set<Detector>, detectors: seq<Detector>)
    ensures multiset(Filter(Surviving(removed), detectors)) + multiset(Filter(Removed(removed), detectors)) == multiset(detectors)
  {
    FilterPartitions(Surviving(removed), Removed(removed), detectors);
  }
}
