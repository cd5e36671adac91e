/** Check runs and findings. */
module Reports {
  import opened Text
  import opened Lists
  import opened Workspaces
  import opened Evidence

  datatype SkipReason =
    | AmbiguousPackageManager
    | ProjectRoleUnknown
    | DetectorDisabled(removed: set<Detector>)

  datatype Status = Completed | Skipped(reason: SkipReason) | Failed(detail: string)

  datatype CheckRun = CheckRun(check: string, subject: string, status: Status)

  datatype Proof =
    | MissingLockfile(manager: Manager, accepted: seq<string>)
    | ConflictingLockfiles(families: set<Manager>, lockfiles: seq<string>)

  /** `locations` starts with the manifest; severity, texts and fingerprint are functions of the rest. */
  datatype Finding = Finding(check: string, subject: string, locations: seq<string>, proof: Proof)

  function ProjectSubject(root: string): string { if root == "" then "." else root }

  function CompletedRun(check: string): string -> seq<CheckRun> {
    (root: string) => [CheckRun(check, ProjectSubject(root), Completed)]
  }

  function FailedRunOf(check: string, detector: Detector): ParseError -> seq<CheckRun> {
    (e: ParseError) => if e.detector == detector then [CheckRun(check, ProjectSubject(Dir(e.path)), Failed(e.detail))] else []
  }

  function FailedRuns(ctx: Context, check: string, detector: Detector): seq<CheckRun> {
    FlatMap(FailedRunOf(check, detector), ctx.parseErrors)
  }

  method FailedRunsForDetector(ctx: Context, check: string, detector: Detector) returns (runs: seq<CheckRun>)
    ensures runs == FailedRuns(ctx, check, detector)
  {
    runs := [];
    for n := 0 to |ctx.parseErrors|
      invariant runs == FlatMap(FailedRunOf(check, detector), ctx.parseErrors[..n])
    {
      FlatMapStep(FailedRunOf(check, detector), ctx.parseErrors, n);
      var e := ctx.parseErrors[n];
      if e.detector != detector {
        continue;
      }
      runs := runs + [CheckRun(check, ProjectSubject(Dir(e.path)), Failed(e.detail))];
    }
    assert ctx.parseErrors[..|ctx.parseErrors|] == ctx.parseErrors;
  }

  lemma FailedRunsAreFailed(ctx: Context, check: string, detector: Detector)
    ensures forall run :: run in FailedRuns(ctx, check, detector) ==> run.status.Failed?
  {
    forall run | run in FailedRuns(ctx, check, detector) ensures run.status.Failed? {
      FlatMapMember(FailedRunOf(check, detector), ctx.parseErrors, run);
    }
  }
}
