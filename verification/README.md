# Verified model of deplens' analysis core

deplens is a static scanner: it finds dependency declarations across a repository, checks policies
such as missing lockfiles without contacting any service, and can generate requirement files for the
groups it found. This project models the parts of it where a mistake would be hard to see and proves
what they promise, for all inputs, all file systems and all runs.

- **Policy engine** (`Workspaces`, `Evidence`, `Reports`, `JavaScriptChecks`, `TomlChecks`, `Exclusions`): path globs
  and workspace ownership, collection of evidence, the lockfile checks and their exclusion. `PolicyOutcomes`,
  `PolicyRuns` and `PolicyFindings` state what the checks report in terms of the scanned files; `Noninterference` and
  `BuiltInDetectors` what excluding detectors may change.
- **Generation** (`GroupNames`, `GroupNameForms`, `GenerationWriting`, `Generation`, `GenerationContents`,
  `GenerationCollisions`): the name allocator, the plan, the contents, and writing over an arbitrary file system with
  arbitrary faults.
- **Hand-written readers**: each accepts exactly the writings of what it returns. `Marker` with `MarkerGrammar`,
  `ClojureLexer` and `ClojureForms` with `ClojureWriting`, `PipWords`, `DuneForms` with `DunePrinting` and `DuneWriting`,
  `ErlangTerms` with `ErlangWriting`; `Gaps` holds the gaps of the last two.
- **Rewriters that must not lose their place** (`ExecutableDsl`, `DslWriting`, `GradleSegments`, `GradleBlocks`, `Jsonc`,
  `JsoncKeeps`, `JsoncTokens`, `JsoncReading`, `JsoncSpacing`, `JsoncJson`).
- **Walks and fixpoints** (`Requirements`, `RequirementPlaces`, `Catalog`, `CatalogResolution`, `Substitution`,
  `SubstitutionChains`, `SubstitutionJoins`, `SubstitutionRuns`).

`Text` and `Lists` hold what the others share: strings and their order, and the append-in-a-loop pattern.

Code that changes state step by step is modelled by methods and classes with the same branches, each proved
against a function of its inputs or of the old state. The theorems about those functions end in statements that
do not mention them: what is read in terms of how it is written, what is reported in terms of the scanned files, what
is on disk in terms of the groups.
`dafny verify dfyconfig.toml` checks the project.

## Conventions

- Strings are sequences of characters. In byte-wise scanners a character stands for a byte, in the rune-wise ones for
  a rune; nothing depends on how large its code is.
- Paths are clean, relative and slash-separated, as the scanner produces them: no empty segment and no `.`. Results that
  need it say so with `CleanPath` or `CleanFiles`.
- Library calls are parameters or inputs: `path.Match` on one segment, the decoded form of JSON, TOML and YAML files,
  the reading of package.json specifiers, VERS ranges, the writing of POM files, and how an include target resolves
  against its file.

## Where the code differs from its documentation or its purpose

- README.md line 172 says that unique safe names are used unchanged. A name that an earlier, location-suffixed group
  already took is changed. `GroupNames.NameUnchangedIff` gives the exact condition, `GroupNames.UniqueSafeNameDisplaced`
  a failing pair for every location, `GroupNames.OrdinaryNameKept` what holds.
- Destinations are checked for collisions per source only. `Generation.SourcesCanCollide` gives a colliding pair of
  sources for every location. Without overwrite the run stops, `Generation.GenerationCompletesIff`; with overwrite
  it completes and a content can be lost, `Generation.OverwritingKeepsAllIff`.
  `GenerationCollisions.CanCoincideIff` tells which sources are concerned.
- Excluding a detector can hand a file to a prerequisite detector that it stood before.
  `Noninterference.ExclusionKeepsEvidence` gives the exact condition, `Noninterference.MaskedPrerequisite` the
  failing family. It can also leave a looked-up file without a source: `Noninterference.ExclusionKeepsLookups` and
  `Noninterference.LostLockfile`. Neither happens with the built-in detectors, whatever is excluded:
  `BuiltInDetectors.BuiltInExclusion`.
- Property values can join into references that neither contains. `SubstitutionJoins.JoinedReferenceEscapes`
  gives failing texts, `SubstitutionJoins.ExactResolution` the exact condition.
- Removing a comment can join the tokens beside it. `JsoncReading.NormalizedTokensIff` gives the exact condition,
  `JsoncReading.CommentJoins` the failing family.
- JSONC normalisation is not idempotent as a whole. `JsoncKeeps.NormalizedTwiceIff` gives the exact condition.

## Model

| member | source | states |
|---|---|---|
| `Workspaces.GlobMatchesIffSplits` | internal/analyze/rules.go:714-734 | The glob matcher accepts a path if and only if the path can be cut along the pattern: `**` takes any run, empty or not, every other segment exactly one matching path segment. |
| `Workspaces.RepeatedStarsCollapse` | internal/analyze/rules.go:718-728 | A doubled `**` anywhere in a pattern accepts exactly what a single one accepts. |
| `Workspaces.WorkspaceMatches` | internal/analyze/findings.go:752-762 | The loop over patterns accepts exactly when some including pattern applies and no later applying pattern excludes: the last match decides. |
| `Workspaces.LastPatternDecides` | internal/analyze/findings.go:752-762 | Nothing is accepted without patterns, and one more pattern decides if it applies and changes nothing if it does not. |
| `Workspaces.PatternAppliesIff` | internal/analyze/findings.go:752-762 | A pattern applies to a path if and only if, behind an optional `!`, its segments between slashes accept consecutive pieces of the segments of the path. |
| `Workspaces.RelativeJoins` | internal/analyze/findings.go:698-706 | The path of a project below an ancestor, joined to the ancestor, is the project again. |
| `Workspaces.ClaimsIff` | internal/analyze/findings.go:698-712 | A workspace claims a project if and only if the project is its root joined with some path that its patterns accept. |
| `Workspaces.WorkspaceOwner` | internal/analyze/findings.go:698-712 | The search loop returns the root of the deepest claiming workspace strictly above the project, or the project itself when none claims it. |
| `Workspaces.OwnerUnique` | internal/analyze/findings.go:698-712 | The owner depends only on the set of claiming workspaces: reordering, duplicating, or adding workspaces that claim nothing never changes it. |
| `Workspaces.OwnerIff` | internal/analyze/findings.go:698-712 | The owner in terms of joined paths: the longest root of the workspaces that take the project in, or the project when none does. |
| `Workspaces.PatternlessNeverOwns` | internal/analyze/findings.go:706-712 | Two workspace lists that differ only in workspaces without patterns have the same owners; this is why one prerequisite list may omit js-yarnrc. |
| `Workspaces.OwnerIsSelfOrAncestor` | internal/analyze/findings.go:698-712 | The owner is the project or one of its strict ancestors, and then strictly shorter. |
| `Evidence.BuildEvaluationContext` | internal/analyze/findings.go:141-212 | One pass over sources and policy inputs builds the context: per-path map, JavaScript, uv and Cargo manifests, workspaces and parse errors; each of the four lists ascends, and every map key is the path stored under it. |
| `Reports.FailedRunsForDetector` | internal/analyze/findings.go:793-809 | Exactly one failed run per parse error of the detector, in order. |
| `JavaScriptChecks.JavaScriptLockManagers` | internal/analyze/findings.go:738-750 | The managers whose lockfile exists at a root, for every manager of the table. |
| `JavaScriptChecks.GroupProjects` | internal/analyze/findings.go:434-475 | The loops that fill the project map arrive at the declarative grouping: owners as keys, any-of for dependencies and invalid managers, union for manager evidence, the own manifest preferred over the first member. |
| `JavaScriptChecks.EvaluateJavaScriptLockfile` | internal/analyze/findings.go:431-512 | Runs and findings of the imperative evaluator equal the ones determined project by project, in sorted root order. |
| `JavaScriptChecks.EvaluateConflictingJavaScriptLockfiles` | internal/analyze/findings.go:514-551 | The conflict evaluator reports a finding exactly at the owners with lockfiles of two or more managers, listing all of them sorted. |
| `JavaScriptChecks.BuiltRootsClean` | internal/analyze/findings.go:771-783 | No root of a built context is spelled ".", so the subject "." always means the scan root. |
| `JavaScriptChecks.CompletedIff` | internal/analyze/findings.go:476-508 | An evaluator completes a project if and only if it has dependencies, no invalid manager declaration, and all manager evidence names exactly this manager. |
| `JavaScriptChecks.MissingIff` | internal/analyze/findings.go:476-511 | A project is reported if and only if it has dependencies, no invalid manager declaration, all evidence names exactly this manager, and none of its lockfile names exists at the root. |
| `JavaScriptChecks.ConflictIff` | internal/analyze/findings.go:530-548 | A conflict is reported if and only if lockfiles of two or more managers are at the root. |
| `JavaScriptChecks.AtMostOneManagerCompletes` | internal/analyze/findings.go:431-512 | For every context and project at most one of the npm, pnpm and yarn evaluators completes. |
| `JavaScriptChecks.MissingMeansNoLockfileAtAll` | internal/analyze/findings.go:490-508 | A missing-lockfile finding about a project implies that no JavaScript lockfile of any manager is at its root. |
| `JavaScriptChecks.MissingExcludesConflict` | internal/analyze/findings.go:431-551 | A missing-lockfile finding and a conflicting-lockfiles finding never share a subject. |
| `JavaScriptChecks.ConflictIsAmbiguousForEveryFamily` | internal/analyze/findings.go:480-493 | Where two managers left lockfiles, each of their evaluators skips as ambiguous instead of reporting. |
| `TomlChecks.EvaluateUVLockfile` | internal/analyze/findings.go:553-593 | Runs and findings of the uv evaluator, including its map-ordered bookkeeping, equal the declarative ones. |
| `TomlChecks.UvProjectsExact` | internal/analyze/findings.go:560-582 | The uv projects reported are exactly the owners of counting manifests, each once. |
| `TomlChecks.UvOwnerHasManifest` | internal/analyze/findings.go:565-580 | An owner chosen for a uv manifest always has a manifest itself, so the lookup that follows cannot fail. |
| `TomlChecks.UvFindingSound` | internal/analyze/findings.go:583-592 | Every uv finding comes from a counting manifest whose owner has no uv.lock. |
| `TomlChecks.UvFindingComplete` | internal/analyze/findings.go:583-592 | Every counting manifest whose owner has no uv.lock leads to a finding. |
| `TomlChecks.BuiltCargoRootsClean` | internal/analyze/findings.go:771-783 | No Cargo root of a built context is spelled ".", which is what the three Cargo theorems below ask of a context. |
| `TomlChecks.EvaluateCargoLockfile` | internal/analyze/findings.go:595-628 | Runs and findings of the Cargo evaluator with its `seen` set equal the declarative ones. |
| `TomlChecks.CargoCompletedIff` | internal/analyze/findings.go:600-627 | A Cargo owner is completed if and only if an application manifest with dependencies belongs to it. |
| `TomlChecks.CargoFindingIff` | internal/analyze/findings.go:600-627 | A Cargo owner is reported if and only if such an application belongs to it and it has no Cargo.lock. |
| `TomlChecks.CargoReportedOnce` | internal/analyze/findings.go:612-616 | An owner completed at one manifest is neither completed nor reported again at a later one. |
| `PolicyOutcomes.MissingLockfileIff` | internal/analyze/findings.go:431-512 | From the scanned files: an npm, pnpm or yarn check completes a project if and only if some package.json owned by the root has dependencies, none declares an invalid manager and all declarations, workspaces and lockfiles speak for this manager; it skips as ambiguous exactly when something speaks for it but something else for another one, or a declaration is invalid; it reports exactly the completed projects without a lockfile of the manager at the root. |
| `PolicyOutcomes.FindingsAreAboutProjects` | internal/analyze/findings.go:431-551 | Every finding of these checks is about the root that owns some scanned package.json. |
| `PolicyOutcomes.ConflictReportedIff` | internal/analyze/findings.go:514-551 | From the scanned files: a project is reported if and only if files named like lockfiles of two managers lie at its root. |
| `PolicyOutcomes.CargoReportedIff` | internal/analyze/findings.go:595-628 | From the scanned files: a root is completed if and only if an application with dependencies is owned by it, and reported if also no Cargo.lock lies there. |
| `PolicyOutcomes.UvReportedIff` | internal/analyze/findings.go:553-593 | From the pyproject inputs: a root is reported if and only if it owns a project with dependencies that uv manages and no uv.lock lies there. |
| `PolicyOutcomes.FailedRunIff` | internal/analyze/findings.go:793-809 | A failed run stands for exactly one unreadable source or policy input, with its directory as subject and its error as detail. |
| `PolicyOutcomes.SkippedSubjectsIff` | internal/analyze/exclusions.go:79-119 | The subjects of skipped runs are exactly the directories of manifests and unreadable files the check starts from, or the scan root when there are none. |
| `PolicyRuns.RunsExactly` | internal/analyze/findings.go:431-628 | From the scanned files, for every check and every run: it is reported if and only if it stands for an unreadable file the check watches, or completes or skips a project as that check does, Cargo libraries included. |
| `PolicyFindings.MissingFindingSays` | internal/analyze/findings.go:490-508 | A finding names its check, a project, the manifest at the root or else the owned one with the least path, the manager and the lockfile names looked for. |
| `PolicyFindings.ConflictFindingSays` | internal/analyze/findings.go:530-548 | A conflict finding lists that manifest, all lockfiles at the root in ascending order, and exactly their managers. |
| `PolicyFindings.CargoFindingSays` | internal/analyze/findings.go:617-626 | A Cargo finding is located at the Cargo.toml of the root, or else at the application with the least path. |
| `PolicyFindings.UvFindingSays` | internal/analyze/findings.go:583-592 | A uv finding is located at the pyproject file of the root it is about. |
| `Exclusions.DetectorDisabledRuns` | internal/analyze/exclusions.go:63-119 | The skip loops produce exactly one skipped run per affected subject, naming the removed prerequisites. |
| `Exclusions.EvaluateCheck` | internal/analyze/findings.go:97-139 | Dispatch to the evaluators gives the outcome that the theorems below speak about. |
| `Exclusions.EvaluateChecks` | internal/analyze/findings.go:97-139 | The entry point: over all checks the context is built once, a check with a disabled prerequisite contributes its skips and any other check its own outcome. |
| `Exclusions.DisabledPrerequisiteOnlySkips` | internal/analyze/exclusions.go:63-119 | A check with a removed prerequisite yields no finding and only skipped runs, at least one, for exactly the known subjects; with none removed it reports its ordinary outcome. |
| `Exclusions.Exclude` | internal/analyze/exclusions.go:12-47 | Exclusion succeeds if and only if all IDs are known, and then keeps the order of the surviving detectors and checks. |
| `Exclusions.ExclusionPartitions` | internal/analyze/exclusions.go:32-40 | Every detector ends up either surviving or disabled, none is lost or doubled. |
| `Noninterference.OutcomeUnchanged` | internal/analyze/exclusions.go:51-61 | Two scans with the same sources of the prerequisite detectors, and the same answers at the paths the check looks up, give every check the same runs and findings. |
| `Noninterference.AnalyzeDependencySource` | internal/analyze/rules.go:474-547 | The detector loop returns the source of the first detector that recognises the file. |
| `Noninterference.SurvivorsKeepTheirFiles` | internal/analyze/rules.go:474-547 | A file recognised by a surviving detector keeps its source when other detectors are removed. |
| `Noninterference.ExclusionKeepsEvidence` | internal/analyze/rules.go:474-547 | Excluding non-prerequisite detectors keeps the prerequisite sources if and only if no file had an excluded detector first and a prerequisite one behind it. |
| `Noninterference.ExclusionKeepsLookups` | internal/analyze/rules.go:474-547 | After an exclusion the looked-up files give the same answers if and only if none of them was recognised by excluded detectors only. |
| `Noninterference.ExclusionIsConservative` | internal/analyze/exclusions.go:12-119 | End to end over rescan and evaluation: a check with an excluded prerequisite reports only skips, at least one; any other check reports exactly what it reported before, provided no excluded detector stood before a prerequisite one on a file and no file the check looks up is recognised by excluded detectors only. |
| `Noninterference.SparedExclusionIsConservative` | internal/analyze/exclusions.go:12-119 | The same from a simpler condition: no excluded detector recognises a file that a prerequisite detector recognises or that the check looks up. |
| `Noninterference.MaskedPrerequisite` | internal/analyze/rules.go:474-547 | Where an excluded detector stood before the JavaScript one on a manifest, the conflict check changes its outcome: the family on which exclusion is not conservative. |
| `Noninterference.LostLockfile` | internal/analyze/findings.go:612-627 | Where the lockfile of a Cargo application is recognised by an excluded detector only, the exclusion keeps all evidence of the check and yet adds a finding. |
| `BuiltInDetectors.PrerequisitesAreReaders` | internal/analyze/exclusions.go:49-61 | The prerequisites of a check are exactly the detectors that read the manifests, configurations and lockfiles the check consults. |
| `BuiltInDetectors.BuiltInExclusion` | internal/analyze/exclusions.go:12-119 | With the built-in detectors, one per file name, and any excluded set: a check one of whose files is read by an excluded detector only skips, any other check reports exactly what it reported before, so no exclusion ever adds a finding. |
| `GroupNames.SafeFilenameComponent` | internal/analyze/generate.go:236-254 | The rune loop with its dash flag computes the sanitised component. |
| `GroupNames.SafeNamesUnchanged` | internal/analyze/generate.go:236-254 | Sanitising leaves a name alone if and only if it is already safe and not reserved. |
| `GroupNames.GenerationGroupComponents` | internal/analyze/generate.go:205-234 | The allocator terminates for every list of groups, and each name is the first untaken candidate of its component. |
| `GroupNames.SuffixBounded` | internal/analyze/generate.go:223-229 | Pigeonhole: if the first k-1 candidates are taken, at least k-1 names were assigned before. |
| `GroupNames.SuffixesBounded` | internal/analyze/generate.go:223-229 | The i-th group (from 0) needs a numeric suffix of at most i+1. |
| `GroupNames.NamesDistinct` | internal/analyze/generate.go:205-234 | Allocated names are pairwise distinct. |
| `GroupNames.NamesAreSafe` | internal/analyze/generate.go:205-262 | Every allocated name is non-empty, over the safe alphabet, and never "." or "..". |
| `GroupNameForms.SanitisedIff` | internal/analyze/generate.go:236-254 | The component of a value is the value with each longest run of unsafe characters replaced by one dash, or `group` where that gives nothing, `.` or `..`. |
| `GroupNameForms.LocationIs` | internal/analyze/generate.go:256-262 | The component of a location is the sanitised form of what stands behind an optional leading dot, without dots and dashes at either end; where that is `group` it is `root`. |
| `GroupNameForms.DecimalReads` | internal/analyze/generate.go:223-229 | The number of a suffix reads back from its digits and has no leading zero. |
| `GroupNameForms.NamesExactly` | internal/analyze/generate.go:205-234 | Every allocated name is the sanitised name, continued by `-at-` and the location when unnamed or shared, and then by the first numeral from 2 that makes it free if it is taken. |
| `GroupNames.AllocationUnique` | internal/analyze/generate.go:205-234 | The allocation is determined by the groups. |
| `GroupNames.NameUnchangedIff` | internal/analyze/generate.go:219-230 | A group keeps its own name if and only if the name is safe, not reserved, its sanitised form is unique among the groups, and no earlier group was given it. |
| `GroupNames.UniqueSafeNameDisplaced` | internal/analyze/generate.go:219-230 | For every location there are two groups whose second has a unique safe name that is nevertheless changed. |
| `GroupNames.UniqueNameKept` | internal/analyze/generate.go:219-230 | A unique safe name is kept if it continues no located component of an earlier group, and never kept if it repeats one. |
| `GroupNames.OrdinaryNameKept` | internal/analyze/generate.go:205-234 | A unique safe name without `-at-` is always used unchanged. |
| `GenerationWriting.Disk.WriteGeneratedFile` | internal/analyze/generate.go:264-301 | Success puts the full content at the destination. With overwrite a failure changes nothing; without it an existing destination fails and stays, and only a creation that failed midway leaves its partial file. No other path ever changes. |
| `GenerationWriting.Disk.WriteAll` | internal/analyze/generate.go:108-120 | The write loop performs the plans in order and stops at the first failure, reporting exactly the written prefix. |
| `GenerationWriting.ExistingNeverChange` | internal/analyze/generate.go:264-301 | Without the overwrite flag no entry that existed before ever changes, whatever fails. |
| `GenerationWriting.OnlyPlannedChange` | internal/analyze/generate.go:108-120 | Whatever fails, a run changes only destinations of plans it reached, and directories of such plans that did not exist. |
| `GenerationWriting.PrefixIsWritten` | internal/analyze/generate.go:108-120 | Whatever fails and whether or not destinations coincide: after a run each path that is no directory of a plan holds the content of the last performed plan for it; without one it is as before, except for the partial file of an exclusive create that failed midway. |
| `GenerationWriting.CompletedRunKeepsAllIff` | internal/analyze/generate.go:108-120 | A completed run leaves every planned content on disk if and only if plans with equal destinations have equal contents. |
| `GenerationWriting.CollisionStopsRun` | internal/analyze/generate.go:108-120 | Without overwrite a run never gets past the second of two plans with one destination. |
| `GenerationWriting.ExclusiveRunCompletesIff` | internal/analyze/generate.go:108-120 | On vacant destinations and without faults the run completes if and only if all destinations differ. |
| `GenerationWriting.OverwritingRunCompletes` | internal/analyze/generate.go:108-120 | With overwrite and without faults a run over replaceable destinations completes, coinciding or not. |
| `Generation.PlanGroups` | internal/analyze/generate.go:45-106 | Planning one source either plans or reports every group in order or stops at the first error; the destination collision error is unreachable. |
| `Generation.PlanAll` | internal/analyze/generate.go:34-106 | The same over all sources. |
| `GenerationContents.Generate` | internal/analyze/generate.go:24-128 | Refused, with the file system as it was, if and only if the format is unknown or a source cannot be generated; otherwise the sorted plans are run, the result says how far, and after a complete run each destination holds the dependencies of a ready group. |
| `GenerationContents.PlanningSucceedsIff` | internal/analyze/generate.go:24-106 | Planning succeeds if and only if each source selected by the request has only groups that are ready, or reported with a reason, in the requested format, with every dependency complete and the destination free unless overwriting. |
| `GenerationContents.ReadyGroupsPlanned` | internal/analyze/generate.go:45-106 | On success every ready group of a selected source has a plan. |
| `GenerationContents.FilesHoldGroups` | internal/analyze/generate.go:108-137 | After a completed run each destination holds a ready group that was planned for it: for requirements, the raw texts of its dependencies in order, one per line. |
| `GenerationContents.DirectoriesMade` | internal/analyze/generate.go:264-301 | The directory of every performed plan exists after the run. |
| `GenerationContents.OutcomesExactly` | internal/analyze/generate.go:54-128 | The reported outcomes are exactly those of the plans and one, with state and reason, for each eligible group that is not ready. |
| `Generation.StepsHaveOneOutcome` | internal/analyze/generate.go:54-106 | On success every eligible group has exactly one outcome. |
| `Generation.OneSourceDistinct` | internal/analyze/generate.go:71-74 | Destinations of one source are pairwise distinct. |
| `Generation.SourcesCanCollide` | internal/analyze/generate.go:66-70 | Two sources with one ready group each, at `a` with group `b-c` and at `a-b` with group `c`, are planned without error for one destination: an exclusive run stops at the second, an overwriting one completes and keeps only the second content. |
| `Generation.PlannedPathsVacant` | internal/analyze/generate.go:80-93 | Without overwrite every planned destination was absent when planned. |
| `Generation.GenerationCompletesIff` | internal/analyze/generate.go:24-128 | Without overwrite and faults any generation completes its plans if and only if their destinations differ across all sources. |
| `Generation.GenerationLeaves` | internal/analyze/generate.go:24-128 | For either flag and any faults, every planned destination of a generation holds the last performed content, or what it held before, or the partial file of the create that failed. |
| `Generation.OverwritingKeepsAllIff` | internal/analyze/generate.go:24-128 | With overwrite and without faults every generation completes, and it leaves all planned contents on disk if and only if plans with equal destinations have equal contents. |
| `GenerationCollisions.OnlyNamedPathsChange` | internal/analyze/generate.go:24-128 | With either flag and under any faults a generation changes no path but those named after one of its sources with a safe, unreserved component, and directories only where nothing was. |
| `GenerationCollisions.PathsCoincideIff` | internal/analyze/generate.go:66-70 | Two destinations are equal if and only if source and group name are, or one source path continues the other with a dash and a text with which the other group name begins. |
| `GenerationCollisions.CanCoincideIff` | internal/analyze/generate.go:66-70 | Two different source paths can be given one destination at all if and only if one continues the other with a dash and safe characters. |
| `GenerationCollisions.ApartSourcesComplete` | internal/analyze/generate.go:24-128 | In a scan without such paths every generation completes, absent faults, with either flag and leaves all planned contents on disk. |
| `Marker.ValidatePEP508Marker` | internal/analyze/python_requirement.go:41-51 | The recogniser methods with their saved and restored positions accept exactly the recognised language. |
| `Marker.Parser.ParseExpression` | internal/analyze/python_requirement.go:53-63 | One mutually recursive method per grammar level, terminating on the remaining input. |
| `Marker.Parser.ParseTerm` | internal/analyze/python_requirement.go:77-87 | Parenthesised expression or comparison, with the position after it. |
| `Marker.Parser.ParseOperator` | internal/analyze/python_requirement.go:125-141 | The operator table in order of trial, then `in` and `not in`; a failure restores the position. |
| `Marker.KeywordIgnoresBlanks` | internal/analyze/python_requirement.go:143-154 | A failed keyword consumes blanks only, which no later keyword notices. |
| `MarkerGrammar.MarkerComplete` | internal/analyze/python_requirement.go:41-168 | Every text the grammar derives is accepted, with any spacing between tokens. |
| `MarkerGrammar.MarkerSound` | internal/analyze/python_requirement.go:41-168 | For every accepted text a derivation tree can be built. |
| `MarkerGrammar.RecogniserIsGrammar` | internal/analyze/python_requirement.go:41-168 | A marker is accepted if and only if the grammar derives it. |
| `ClojureForms.ParseClojureForm` | internal/analyze/clojure_boot.go:198-236 | The index-returning parser, tied to a parser over the remaining tokens; the index strictly advances. |
| `ClojureForms.ParseClojureForms` | internal/analyze/clojure_boot.go:181-196 | The loop over top-level forms. |
| `ClojureForms.ParsesIffFlattens` | internal/analyze/clojure_boot.go:181-236 | A token list parses to a forest if and only if it is the flattening of that forest: the two are inverse both ways. |
| `ClojureForms.ParsesIffBalanced` | internal/analyze/clojure_boot.go:198-253 | A token list parses if and only if brackets match (sets closing with the map bracket) and every reader macro has its operand. |
| `ClojureLexer.UnquoteClojureString` | internal/analyze/clojure_boot.go:324-367 | The unquoting loop with its escapes and errors. |
| `ClojureLexer.LexClojure` | internal/analyze/clojure_boot.go:255-322 | The lexing loop; token positions are in order and within the content. |
| `ClojureWriting.BareLexes` | internal/analyze/clojure_boot.go:312-319 | A non-empty text without delimiters before a delimiter or the end is one scalar holding the whole text. |
| `ClojureWriting.LexIff` | internal/analyze/clojure_boot.go:255-367 | A content lexes to given tokens if and only if it is a writing of them: gaps of white space, commas and comments, signs, bare atoms as long as they can be, and strings whose units mean the value, UTF-8 encoding of code points included. |
| `ClojureWriting.ContentIff` | internal/analyze/clojure_boot.go:181-367 | A content is read as a forest if and only if it is a writing of the tokens of that forest. |
| `ClojureWriting.ParseContent` | internal/analyze/clojure_boot.go:181-196 | The entry point: a forest comes back exactly where the content is a writing of it, an error exactly where it is a writing of none. |
| `Requirements.Collector.CollectDependencies` | internal/analyze/py_requirements.go:58-98 | Collection over the shared active set terminates on every finite tree, cyclic or not, and restores the set. |
| `Requirements.CycleMessageIff` | internal/analyze/py_requirements.go:72-76 | A cycle message appears if and only if some chain of nested files leads to an include of a file active at that point. |
| `RequirementPlaces.CollectedExactly` | internal/analyze/py_requirements.go:58-98 | On any include graph, cyclic or not, the collected requirements correspond one to one and in order to the places (line numbers along a chain of included files) that declare them, and likewise the messages to the includes that fail. |
| `Requirements.CycleReportedIffReachable` | internal/analyze/py_requirements.go:58-98 | Collecting a root reports a cycle if and only if the include graph has a repeating walk from it. |
| `Requirements.NoCycleIsInlining` | internal/analyze/py_requirements.go:58-98 | Without a cycle message the result is plain in-order inlining. |
| `Requirements.AcyclicIsInlining` | internal/analyze/py_requirements.go:58-98 | On a tree without a reachable cycle collection is plain in-order inlining, however deep it may go. |
| `Requirements.RootEntryUnread` | internal/analyze/py_requirements.go:58-98 | The file under collection is never read again: changing it on disk changes nothing. |
| `PipWords.SplitOptionWords` | internal/analyze/py_requirements.go:307-351 | The byte loop over quote, started and the word builder. |
| `PipWords.SplitIffGrammar` | internal/analyze/py_requirements.go:307-351 | A text splits into words if and only if a grammar of blanks, plain, escaped and quoted pieces derives it with those words. |
| `PipWords.SplitUndoesQuoting` | internal/analyze/py_requirements.go:307-351 | Splitting undoes shell quoting (section 2.2 of POSIX.1-2017 Shell Command Language) for every list of words over every character. |
| `Catalog.CatalogOwner` | internal/analyze/javascript_catalog.go:104-140 | Both upward walks terminate; the verdict is the one of the nearest configured directory. |
| `Catalog.OwnedIff` | internal/analyze/javascript_catalog.go:104-140 | A configuration owns a manifest if and only if, in terms of joined paths, it is the only one at the deepest configured directory at or above it, readable, manager-compatible, the manifest an accepted non-workspace member and every manifest in between a plain accepted member. |
| `Catalog.UpwardIff` | internal/analyze/javascript_catalog.go:104-120 | The directories walked are exactly the manifest directory and those it lies in. |
| `Catalog.FartherIgnored` | internal/analyze/javascript_catalog.go:106-139 | Configurations above the nearest one are never consulted. |
| `CatalogResolution.ValidateSourceAnalyzerResult` | internal/analyze/rules.go:607-659 | The validator accepts exactly the results that meet the presence, extraction and diagnostics rules. |
| `CatalogResolution.CollectCatalogs` | internal/analyze/javascript_catalog.go:21-44 | Manifests and configurations per directory, in source order. |
| `CatalogResolution.CollectedExactly` | internal/analyze/javascript_catalog.go:21-44 | Per directory: the last readable manifest, and the single configuration with its catalogs, manager and patterns, which a yarn configuration takes from the package.json beside it. |
| `CatalogResolution.SourceResult.ResolveReferences` | internal/analyze/javascript_catalog.go:50-100 | References are replaced at their own index, in place. |
| `CatalogResolution.ResolveJavaScriptCatalogs` | internal/analyze/javascript_catalog.go:20-102 | Every package.json source is rewritten, every other source left as it was. |
| `CatalogResolution.ResolutionKeeps` | internal/analyze/javascript_catalog.go:45-102 | Count, order, raw text, package type, relationship, group and scope of all dependencies stay, other dependencies stay whole, earlier diagnostics stay. |
| `CatalogResolution.ResolvesIff` | internal/analyze/javascript_catalog.go:63-92 | A reference resolves if and only if a configuration owns the manifest and has, in the table the reference names, a target for the package that is understood and no reference itself. |
| `CatalogResolution.ResolvedCarries` | internal/analyze/javascript_catalog.go:56-92 | Under an owner with a usable target a reference becomes, field by field, the dependency the target says with the raw text, type, relationship, group and scope of the reference; otherwise all but its attributes stays; the attributes record the table named (`default` for none), the path of the owner and the target. |
| `CatalogResolution.UnownedStays` | internal/analyze/javascript_catalog.go:56-99 | A reference that no configuration owns stays as it is, unresolved, with attributes that name its table and no target. |
| `CatalogResolution.OneWarningEach` | internal/analyze/javascript_catalog.go:93-99 | There are exactly as many new warnings as unresolved references; each names one of these, and each of these is named. |
| `CatalogResolution.UnresolvedIsPartial` | internal/analyze/javascript_catalog.go:93-99 | A result with an unresolved reference becomes partial and gains warnings; one without keeps its state and diagnostics. |
| `CatalogResolution.ValidCodeIff` | internal/analyze/rules.go:661 | A diagnostic code is valid if and only if it is lower-case words joined by single hyphens. |
| `CatalogResolution.ResolutionKeepsValidity` | internal/analyze/javascript_catalog.go:93-99 | A result that met the validator still meets it after resolution. |
| `CatalogResolution.PnpmDefaultAlias` | internal/analyze/javascript_catalog.go:64-68 | Under a pnpm owner `catalog:` and `catalog:default` resolve alike. |
| `Substitution.ReplaceAll` | internal/analyze/maven_pom.go:220-230 | One round replaces exactly the leftmost non-overlapping references to defined, non-empty properties. |
| `Substitution.ResolveValue` | internal/analyze/maven_pom.go:215-239 | Success means that the one-level rounds reach reference-free text within 15 rounds meeting only defined, non-empty properties, and then yields that text; the sixteenth round only notices. |
| `SubstitutionRuns.CutIff` | internal/analyze/maven_pom.go:220-230 | The pieces of a text are its only cutting into references as written, `${name}` or `$(name)`, and characters at which none begins. |
| `SubstitutionRuns.ResolvesIff` | internal/analyze/maven_pom.go:215-239 | Resolution succeeds with a text if and only if at most 15 rounds lead to it, each putting non-empty values in the place of all references, at least one, and no reference is left. |
| `SubstitutionJoins.SettledChainsEnd` | internal/analyze/maven_pom.go:215-239 | If no property name holds a `$`, in any text at all: settling after n rounds means that every chain ends within n links at defined properties. |
| `SubstitutionJoins.ExactResolution` | internal/analyze/maven_pom.go:215-239 | If no property name holds a `$`: success with the full recursive expansion if and only if every chain ends within 15 links at defined properties and every round reads again just the pieces that went into its text. |
| `SubstitutionChains.BoundedResolution` | internal/analyze/dotnet.go:370-394 | Judged by text and values alone: where every `$` starts a reference or cannot come to start one, because of what follows it in its own text, that second condition holds in every round, so success means that all chains end within 15 links and always gives the full expansion. |
| `SubstitutionJoins.ReachableCycleFails` | internal/analyze/maven_pom.go:215-239 | Every cycle of properties the text can reach is reported as failure: in any text if no property name holds a `$`, and with any names in the texts of `BoundedResolution`. |
| `SubstitutionJoins.JoinedReferenceEscapes` | internal/analyze/maven_pom.go:215-239 | A value ending in a lone `$` can join with the next into a reference that no chain contains: text that expands to `${c}` settles at the value of `c`, and fails where `c` is undefined although all chains end. |
| `ExecutableDsl.StripComments` | internal/analyze/gradle.go:416-482 | The rune loop with quote, escape and comment state; it fails exactly on an open quote or block comment. |
| `DslWriting.StrippedIff` | internal/analyze/gradle.go:416-482 | A content is stripped to given text if and only if it is a writing of code, quoted strings and comments, and the text is that writing with the comments blanked. |
| `ExecutableDsl.BlankedKeepsPlaces` | internal/analyze/gradle.go:416-482 | Length stays; each character stays or becomes a blank; line feeds stay where they are. |
| `ExecutableDsl.StrippedHasNoComments` | internal/analyze/gradle.go:416-482 | Wherever a scanner that knows only quotes is outside quotes, no comment starts. |
| `ExecutableDsl.StrippingTwice` | internal/analyze/gradle.go:416-482 | A second application changes nothing. |
| `ExecutableDsl.StringsKept` | internal/analyze/gradle.go:416-482 | The quote-only scanners that follow see exactly the original string literals, unchanged. |
| `ExecutableDsl.MatchingBrace` | internal/analyze/gradle.go:242-273 | The first brace outside quotes at which more are closed than opened since the start, or none. |
| `GradleSegments.StackLayered` | internal/analyze/gradle.go:315-332 | At every position the context stack starts outside and rises by at most one level per block. |
| `GradleSegments.QuotedTextIrrelevant` | internal/analyze/gradle.go:296-311 | Two texts that differ only inside quotes have the same scanner state at every position: quoted braces and keywords do not count. |
| `GradleSegments.SameSegments` | internal/analyze/gradle.go:290-348 | Hence neither the covered positions nor the error changes. |
| `GradleBlocks.HeaderIff` | internal/analyze/gradle.go:288-318 | What the scanner takes for a header before a brace: white space back to a place where the word stands with no word character before it. |
| `GradleBlocks.GradleDependencySegments` | internal/analyze/gradle.go:290-348 | Fails exactly when a `dependencies` block encloses the end; otherwise the segments are disjoint, in order, and cover exactly the positions that such blocks enclose, without the switching braces. |
| `GradleBlocks.ContextIsBlock` | internal/analyze/gradle.go:296-332 | The scanner is in constraint context if and only if an enclosing `dependencies` block encloses an enclosing `constraints` block, in direct context if only the former encloses, else outside; enclosing means by balance of braces outside quotes. |
| `GradleBlocks.InsideIsBlock` | internal/analyze/gradle.go:290-348 | Hence the positions that segments cover are exactly those that such blocks enclose on both sides. |
| `GradleBlocks.ClosedIff` | internal/analyze/gradle.go:344-347 | A build is rejected if and only if a `dependencies` block still encloses its end. |
| `GradleBlocks.PartnerRestores` | internal/analyze/gradle.go:242-332 | The brace the matcher finds for an opening brace takes the scanner back to the stack before that brace, and in between the stack is only ever larger. |
| `Jsonc.RemoveComments` | internal/analyze/deno_jsonc.go:24-85 | The first byte loop, with its errors for open strings and block comments. |
| `Jsonc.RemoveTrailingCommas` | internal/analyze/deno_jsonc.go:87-123 | The second byte loop with its look-ahead. |
| `Jsonc.NormalizeJSONC` | internal/analyze/deno_jsonc.go:23-124 | The entry point: both passes in sequence, failing exactly when the first does. |
| `Jsonc.FirstPassSettles` | internal/analyze/deno_jsonc.go:24-85 | The first pass leaves no comment opener outside strings and is idempotent. |
| `JsoncKeeps.NormalizedKeeps` | internal/analyze/deno_jsonc.go:23-124 | The sequence of line breaks and every string literal survive normalisation. |
| `JsoncKeeps.TrimmedKeepsAllButCommas` | internal/analyze/deno_jsonc.go:87-123 | The second pass deletes only commas outside strings. |
| `JsoncKeeps.NormalizedTwiceIff` | internal/analyze/deno_jsonc.go:23-124 | Normalising again changes nothing if and only if the comment-free text has no two commas in a row before a closing bracket. |
| `JsoncKeeps.NotIdempotent` | internal/analyze/deno_jsonc.go:106-122 | `[1,,]` becomes `[1,]`, which becomes `[1]`. |
| `JsoncReading.NormalizedReads` | internal/analyze/deno_jsonc.go:23-124 | Any writing of tokens with white space and comments in the gaps normalises, and a JSON reader then finds its tokens without trailing commas, bare ones joined where no white space is left between them. |
| `JsoncReading.NormalizedTokensIff` | internal/analyze/deno_jsonc.go:23-124 | The tokens as written survive, trailing commas dropped, if and only if no two bare tokens touch once comments are gone. |
| `JsoncReading.CommentJoins` | internal/analyze/deno_jsonc.go:43-80 | Any two bare tokens with only a comment between them are read as a single one. |
| `JsoncReading.NumbersJoin` | internal/analyze/deno_jsonc.go:43-80 | `1/**/2` is read as the number `12`. |
| `JsoncReading.NormalizedTokens` | internal/analyze/deno_jsonc.go:23-124 | Tokens in which no two bare ones are neighbours survive whatever the gaps, trailing commas dropped. |
| `JsoncSpacing.ReadsIff` | internal/analyze/deno_jsonc.go:23-124 | A JSON reader finds given tokens in a normalised text if and only if the text was a writing of tokens, each as long as it can be, whose remaining tokens without trailing commas are those. |
| `JsoncJson.CommentedJsonReadsPlain` | internal/analyze/deno_jsonc.go:23-124 | A JSON value (section 2 of RFC 8259) with any white space and comments in its gaps and at most one trailing comma per container reads as the plain value. |
| `JsoncJson.ReadsValueIff` | internal/analyze/deno_jsonc.go:23-124 | A JSON reader finds a value in a normalised text if and only if the text was a writing of it with white space and comments in its gaps and at most one trailing comma per container. |
| `DuneForms.ParseForms` | internal/analyze/ocaml_dune_project.go:171-185 | The loop over forms, failing exactly as the reader function fails. |
| `DuneForms.Parser.ParseTerm` | internal/analyze/ocaml_dune_project.go:192-230 | Lists, strings and atoms with the position after them. |
| `DuneWriting.FormsIff` | internal/analyze/ocaml_dune_project.go:155-251 | A content is read as given terms if and only if it is a writing of them: parentheses, plain atoms as long as they can be, strings whose units mean the value, and gaps of white space and comments. |
| `DunePrinting.ReadingUndoesText` | internal/analyze/ocaml_dune_project.go:155-230 | Every term: it survives printing and reading if and only if its atoms are plain and non-empty and none of its lists is empty. |
| `DunePrinting.ReadingUndoesQuoting` | internal/analyze/ocaml_dune_project.go:192-251 | With quoted atoms every term survives, whatever characters its atoms hold. |
| `DunePrinting.TermsRead` | internal/analyze/ocaml_dune_project.go:192-230 | The reader produces only terms that the quoting printer covers. |
| `ErlangTerms.ParseTerms` | internal/analyze/erlang_rebar_config.go:258-280 | The loop over terms and full stops. |
| `ErlangTerms.Parser.ParseTerm` | internal/analyze/erlang_rebar_config.go:282-311 | Every kind of term with the position after it; the position strictly advances. |
| `ErlangTerms.Parser.ParseCollection` | internal/analyze/erlang_rebar_config.go:331-375 | Tuples and lists with trailing commas and list tails. |
| `ErlangTerms.Parser.ParseQuoted` | internal/analyze/erlang_rebar_config.go:377-407 | Quoted values with their escapes and errors. |
| `ErlangWriting.TermsIff` | internal/analyze/erlang_rebar_config.go:258-407 | A content is read as given terms if and only if it is a writing of them, with bare and quoted scalars, tuples, lists with trailing commas and tails, gaps anywhere and a full stop behind each term. |
| `ErlangWriting.EveryTermWritten` | internal/analyze/erlang_rebar_config.go:258-407 | Every list of terms has a writing, and reading it gives the list back. |

## Left out

- Noninterference.ExclusionIsConservative: asks, for a check with all its prerequisites, that nothing is unmasked and no looked-up file is lost; MaskedPrerequisite and LostLockfile show outcomes that differ without either for detectors in general. `BuiltInDetectors.BuiltInExclusion` needs neither for the built-in ones.
- Noninterference.AnalyzeDependencySource: takes what each detector makes of a file as given; loading contents, read failures and the error for an invalid analysis are not modelled.
- Exclusions.EvaluateCheck: dispatches the JavaScript, uv and Cargo checks; the Go, Composer, Gemfile and CODEOWNERS cases are not modelled.
- Evidence.BuildEvaluationContext: leaves out the Go, Composer and Ruby lists, which only the cases above read.
- SubstitutionJoins.ExactResolution: asks, like SettledChainsEnd, that no property name holds a `$`, which section 2.3 of XML 1.0 grants for names of elements; `Substitution.ResolveValue` asks nothing.
- Substitution.ResolveValue: starts from the trimmed value; the text returned beside a failure is not modelled because callers ignore it.
- The Go, Composer, Gemfile and CODEOWNERS evaluators: the shape of the Cargo one without its workspaces.
- Final sorting of runs, findings and generation outcomes: presentation order only.
- The order of equal keys under `slices.SortFunc`, which is unstable; the model's sort is stable.
- Severity, titles, fingerprints and message texts of findings and diagnostics, beyond what validity needs.
- Presets in the exclusion list, rule decoding and detector regular expressions.
- The check that a destination stays under the scan root, errors of file inspection other than absence, parent directories, temporary files and permissions.
- The text of a POM file: a function of the coordinates of the dependencies, which are modelled.
- PolicyOutcomes.UvReportedIff: asks, like PolicyRuns.RunsExactly, that pyproject inputs of one directory agree, as one file per directory gives them.
- Splitting a requirements file into logical lines, comment stripping, and reading a declaration: lines are an input.
- Interpretation of the words a requirements option was split into.
- YAML decoding of catalogs, with its duplicate-key and alias rules: decoded tables are inputs.
- Maven exclusions of a dependency, which catalog resolution would drop and JavaScript dependencies do not have.
- Assembly of the Maven and MSBuild property tables.
- Gradle declarations inside segments, their regular expressions and the masking of nested closures.
- Invalid UTF-8 in executable dependency files, which the rune conversion replaces.
- Extraction of dependencies from Clojure, Erlang and Dune terms.
- `python.go` alias resolution, which does not terminate on a self-assignment.
- Command line, directory walking, symbolic links and rendering.
