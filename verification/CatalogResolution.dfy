/** Rewriting `catalog:` references in place, and the validity of analysis results it must keep. */
module CatalogResolution {
  import opened Text
  import opened Lists
  import opened Workspaces
  import opened Evidence
  import opened Catalog

  // ----- analysis results and their validity -----

  datatype Presence = PresenceUnknown | Absent | Present | OtherPresence(text: string)
  datatype Extraction = Unsupported | Failed | Complete | Partial | OtherExtraction(text: string)
  datatype Severity = Warning | Error | OtherSeverity(text: string)

  datatype Diagnostic = Diagnostic(severity: Severity, code: string, message: string)

  datatype Dependency = Dependency(packageType: string, raw: string, name: string, version: string, constraint: string,
                                   vers: string, group: string, origin: string, relationship: string, scope: string,
                                   attributes: map<string, string>)

  /** The part of a source result that analysis produces and catalog resolution rewrites. */
  datatype Report = Report(presence: Presence, extraction: Extraction, dependencies: seq<Dependency>, diagnostics: seq<Diagnostic>)

  predicate ValidAnalysis(presence: Presence, extraction: Extraction) {
    match presence
    case PresenceUnknown => extraction == Unsupported || extraction == Failed
    case Absent => extraction == Unsupported || extraction == Complete
    case Present => extraction == Unsupported || extraction == Complete || extraction == Partial
    case OtherPresence(_) => false
  }

  predicate WordChar(c: char) { 'a' <= c <= 'z' || '0' <= c <= '9' }

  /** Lower-case words joined by single hyphens. */
  predicate ValidCode(code: string) {
    && code != "" && WordChar(code[0]) && WordChar(code[|code| - 1])
    && (forall i :: 0 <= i < |code| ==> WordChar(code[i]) || code[i] == '-')
    && (forall i :: 0 < i < |code| ==> WordChar(code[i - 1]) || WordChar(code[i]))
  }

  /** `unicode.IsSpace`. */
  predicate BlankChar(c: char) {
    || c == ' ' || '\t' <= c <= '\r' || c == '\U{0085}' || c == '\U{00A0}' || c == '\U{1680}' || '\U{2000}' <= c <= '\U{200A}'
    || c == '\U{2028}' || c == '\U{2029}' || c == '\U{202F}' || c == '\U{205F}' || c == '\U{3000}'
  }

  /** `strings.TrimSpace` leaves nothing. */
  predicate Blank(text: string) { forall i :: 0 <= i < |text| ==> BlankChar(text[i]) }

  predicate ValidDiagnostic(d: Diagnostic) {
    !d.severity.OtherSeverity? && ValidCode(d.code) && !Blank(d.message)
  }

  /** Lower-case words joined by hyphens for a code, and a message with a character that is no white space. */
  ghost predicate Speaks(d: Diagnostic) {
    && (d.severity == Warning || d.severity == Error) && HyphenatedWords(d.code)
    && exists i :: 0 <= i < |d.message| && d.message[i] !in WHITE_SPACE
  }

  /** The characters with the property White_Space of Unicode. */
  const WHITE_SPACE: seq<char> :=
    ['\t', '\n', '\U{000B}', '\U{000C}', '\r', ' ', '\U{0085}', '\U{00A0}', '\U{1680}', '\U{2000}', '\U{2001}', '\U{2002}',
     '\U{2003}', '\U{2004}', '\U{2005}', '\U{2006}', '\U{2007}', '\U{2008}', '\U{2009}', '\U{200A}', '\U{2028}', '\U{2029}',
     '\U{202F}', '\U{205F}', '\U{3000}']

  ghost predicate ValidReport(r: Report) {
    && (r.presence, r.extraction) in {(PresenceUnknown, Unsupported), (PresenceUnknown, Failed), (Absent, Unsupported),
                                      (Absent, Complete), (Present, Unsupported), (Present, Complete), (Present, Partial)}
    && (r.dependencies != [] ==> r.presence == Present)
    && (r.extraction == Partial ==> r.dependencies != [] && exists d :: d in r.diagnostics && d.severity == Warning)
    && (r.extraction == Failed ==> exists d :: d in r.diagnostics && d.severity == Error)
    && (forall d :: d in r.diagnostics ==> Speaks(d))
  }

  /** The validator as written: the first violated rule wins. */
  method ValidateSourceAnalyzerResult(r: Report) returns (ok: bool)
    ensures ok == ValidReport(r)
  {
    hide Speaks, ValidCode, Blank;
    if !ValidAnalysis(r.presence, r.extraction) {
      return false;
    }
    if |r.dependencies| > 0 && r.presence != Present {
      return false;
    }
    if r.presence == Absent && |r.dependencies| > 0 {
      return false;
    }
    if r.extraction == Partial && (|r.dependencies| == 0 || |r.diagnostics| == 0) {
      return false;
    }
    if r.extraction == Failed && |r.diagnostics| == 0 {
      return false;
    }
    var hasWarning, hasError := false, false;
    for n := 0 to |r.diagnostics|
      invariant forall k :: 0 <= k < n ==> Speaks(r.diagnostics[k])
      invariant hasWarning <==> exists k :: 0 <= k < n && r.diagnostics[k].severity == Warning
      invariant hasError <==> exists k :: 0 <= k < n && r.diagnostics[k].severity == Error
    {
      var d := r.diagnostics[n];
      SpeaksIff(d);
      if d.severity.OtherSeverity? || !ValidCode(d.code) || Blank(d.message) {
        assert !Speaks(r.diagnostics[n]);
        return false;
      }
      hasWarning := hasWarning || d.severity == Warning;
      hasError := hasError || d.severity == Error;
    }
    if r.extraction == Partial && !hasWarning {
      return false;
    }
    if r.extraction == Failed && !hasError {
      return false;
    }
    ok := true;
  }

  // ----- one reference -----

  /** How a specifier is read (registry, path, git, ...) and how a VERS range is derived: library-like
      parts of the analyzer, so parameters. An empty origin means the specifier is not understood. */
  datatype Reading = Reading(name: string, constraint: string, origin: string, attributes: map<string, string>)
  datatype Rules = Rules(read: (string, string) -> Reading, vers: (string, string) -> string)

  const CATALOG := "catalog:"
  const UNRESOLVED := "javascript" + ("-" + ("catalog" + ("-" + "unresolved")))

  function PackageJsonDependency(rules: Rules, name: string, specifier: string, group: string,
                                 scope: string): Dependency {
    var reading := rules.read(name, specifier);
    Dependency("", name + "@" + specifier, reading.name, "", reading.constraint, "", group, reading.origin, "direct", scope,
               reading.attributes)
  }

  function SpecifierOf(d: Dependency): string { TrimPrefix(d.raw, d.name + "@") }

  predicate IsReference(d: Dependency) { HasPrefix(SpecifierOf(d), CATALOG) }

  function WrittenName(d: Dependency): string { TrimPrefix(SpecifierOf(d), CATALOG) }

  /** pnpm reads `catalog:` as `catalog:default`; yarn keeps the two tables apart. */
  function TableName(d: Dependency, c: Config): string {
    if c.manager == Pnpm && WrittenName(d) == "" then "default" else WrittenName(d)
  }

  function Looked(entries: Entries, table: string, name: string): Option<string> {
    if table in entries && name in entries[table] then Some(entries[table][name]) else None
  }

  function ReferenceAttributes(d: Dependency, nearest: Option<Config>): map<string, string> {
    var named := map["catalog_name" := if WrittenName(d) == "" then "default" else WrittenName(d)];
    if nearest.Some? then named["catalog_source" := nearest.value.path] else named
  }

  predicate Understood(rules: Rules, d: Dependency, target: string) {
    !HasPrefix(target, CATALOG) && PackageJsonDependency(rules, d.name, target, d.group, d.scope).origin != ""
  }

  datatype Outcome = Plain | Resolved(value: Dependency) | Unresolved(value: Dependency)

  /** What becomes of one dependency of the manifest at `root`. */
  function Resolve(rules: Rules, cs: Catalogs, root: string, d: Dependency): Outcome {
    if !IsReference(d) then Plain
    else
      match OwnerOf(cs, root)
      case Refused(nearest, _) => Unresolved(d.(attributes := ReferenceAttributes(d, nearest)))
      case Owned(c) =>
        var target := Looked(c.catalogs, TableName(d, c), d.name);
        var attributes := ReferenceAttributes(d, Some(c));
        if target.None? then Unresolved(d.(attributes := attributes))
        else if !Understood(rules, d, target.value) then
          Unresolved(d.(attributes := attributes["catalog_specifier" := target.value]))
        else Resolved(Rewritten(rules, d, target.value, attributes["catalog_specifier" := target.value]))
  }

  /** The target's dependency with the reference's raw text, package type and relationship. */
  function Rewritten(rules: Rules, d: Dependency, target: string, attributes: map<string, string>): Dependency {
    var made := PackageJsonDependency(rules, d.name, target, d.group, d.scope);
    made.(raw := d.raw, packageType := d.packageType, relationship := d.relationship,
           attributes := made.attributes + attributes, vers := rules.vers(d.packageType, made.constraint))
  }

  function After(rules: Rules, cs: Catalogs, root: string): Dependency -> Dependency {
    (d: Dependency) => var o := Resolve(rules, cs, root, d); if o.Plain? then d else o.value
  }

  function Complaint(d: Dependency): Diagnostic {
    Diagnostic(Warning, UNRESOLVED, d.group + ("." + (d.name + (": cannot resolve " + SpecifierOf(d)))))
  }

  function Complaints(rules: Rules, cs: Catalogs, root: string): Dependency -> seq<Diagnostic> {
    (d: Dependency) =>
      var o := Resolve(rules, cs, root, d);
      if o.Unresolved? then [Complaint(o.value)] else []
  }

  function Mapped<S, T>(f: S -> T, xs: seq<S>): (r: seq<T>)
    ensures |r| == |xs| && forall i :: 0 <= i < |xs| ==> r[i] == f(xs[i])
  {
    if xs == [] then [] else Mapped(f, Init(xs)) + [f(Last(xs))]
  }

  function ResolveReport(rules: Rules, cs: Catalogs, root: string, r: Report): Report {
    var complaints := FlatMap(Complaints(rules, cs, root), r.dependencies);
    Report(r.presence, if complaints == [] then r.extraction else Partial,
           Mapped(After(rules, cs, root), r.dependencies), r.diagnostics + complaints)
  }

  // ----- all sources, in place -----

  /** What the readers decode from a source; `workspaces` is the pnpm package list. */
  datatype Facts = Facts(path: string, detector: Detector, js: Decoded<JsFacts>, catalogs: Decoded<Entries>,
                         pnpm: Decoded<seq<string>>)

  class SourceResult {
    const facts: Facts
    const presence: Presence
    var extraction: Extraction
    var dependencies: seq<Dependency>
    var diagnostics: seq<Diagnostic>

    constructor (facts: Facts, report: Report)
      ensures this.facts == facts && State() == report
    {
      this.facts := facts;
      this.presence := report.presence;
      this.extraction := report.extraction;
      this.dependencies := report.dependencies;
      this.diagnostics := report.diagnostics;
    }

    function State(): Report
      reads this
    {
      Report(presence, extraction, dependencies, diagnostics)
    }

    /** The inner loop: each reference is replaced at its own index. */
    method ResolveReferences(rules: Rules, cs: Catalogs)
      modifies this
      ensures State() == ResolveReport(rules, cs, Dir(facts.path), old(State()))
    {
      hide Resolve, ResolveReport, After, Complaints, Complaint, FlatMap, Dir;
      var root := Dir(facts.path);
      ghost var before := State();
      ghost var f, g := After(rules, cs, root), Complaints(rules, cs, root);
      ghost var complaints: seq<Diagnostic> := [];
      FlatMapNil(g);
      assert before.dependencies[..0] == [];
      for n := 0 to |dependencies|
        invariant |dependencies| == |before.dependencies| && dependencies[n..] == before.dependencies[n..]
        invariant forall i :: 0 <= i < n ==> dependencies[i] == f(before.dependencies[i])
        invariant complaints == FlatMap(g, before.dependencies[..n])
        invariant diagnostics == before.diagnostics + complaints
        invariant extraction == if complaints == [] then before.extraction else Partial
      {
        FlatMapStep(g, before.dependencies, n);
        var d := dependencies[n];
        assert d == dependencies[n..][0] == before.dependencies[n];
        var outcome := ResolveOne(rules, cs, root, d);
        EffectOf(rules, cs, root, d, outcome);
        if outcome.Plain? {
          continue;
        }
        dependencies := dependencies[n := outcome.value];
        if outcome.Unresolved? {
          extraction := Partial;
          diagnostics := diagnostics + [Complaint(outcome.value)];
          complaints := complaints + [Complaint(outcome.value)];
        }
      }
      assert before.dependencies[..|dependencies|] == before.dependencies;
      ReportOf(rules, cs, root, before, State());
    }
  }

  lemma EffectOf(rules: Rules, cs: Catalogs, root: string, d: Dependency, o: Outcome)
    requires o == Resolve(rules, cs, root, d)
    ensures After(rules, cs, root)(d) == if o.Plain? then d else o.value
    ensures Complaints(rules, cs, root)(d) == if o.Unresolved? then [Complaint(o.value)] else []
  {
    hide Resolve, Complaint;
  }

  lemma ReportOf(rules: Rules, cs: Catalogs, root: string, before: Report, after: Report)
    requires |after.dependencies| == |before.dependencies| && after.presence == before.presence
    requires forall i :: 0 <= i < |before.dependencies| ==> after.dependencies[i] == After(rules, cs, root)(before.dependencies[i])
    requires var complaints := FlatMap(Complaints(rules, cs, root), before.dependencies);
             && after.diagnostics == before.diagnostics + complaints
             && after.extraction == if complaints == [] then before.extraction else Partial
    ensures after == ResolveReport(rules, cs, root, before)
  {
    hide After, Complaints, FlatMap;
    assert after.dependencies == Mapped(After(rules, cs, root), before.dependencies);
  }

  method ResolveOne(rules: Rules, cs: Catalogs, root: string, d: Dependency) returns (outcome: Outcome)
    ensures outcome == Resolve(rules, cs, root, d)
  {
    var specifier := TrimPrefix(d.raw, d.name + "@");
    if !HasPrefix(specifier, CATALOG) {
      return Plain;
    }
    var catalogName := TrimPrefix(specifier, CATALOG);
    var attributes := map["catalog_name" := if catalogName == "" then "default" else catalogName];
    var owner := CatalogOwner(cs, root);
    var nearest := if owner.Owned? then Some(owner.config) else owner.nearest;
    if nearest.Some? {
      attributes := attributes["catalog_source" := nearest.value.path];
      if nearest.value.manager == Pnpm && catalogName == "" {
        catalogName := "default";
      }
    }
    if owner.Owned? {
      var target := Looked(owner.config.catalogs, catalogName, d.name);
      if target.Some? {
        attributes := attributes["catalog_specifier" := target.value];
        if Understood(rules, d, target.value) {
          return Resolved(Rewritten(rules, d, target.value, attributes));
        }
      }
    }
    outcome := Unresolved(d.(attributes := attributes));
  }

  function ManifestsOf(facts: seq<Facts>): map<string, JsFacts> {
    if facts == [] then map[]
    else
      var f := Last(facts);
      if f.detector == Js && f.js.Decoded? then ManifestsOf(Init(facts))[Dir(f.path) := f.js.value] else ManifestsOf(Init(facts))
  }

  predicate IsConfig(f: Facts) { f.detector == JsPnpmWorkspace || f.detector == JsYarnrc }

  function ConfigOf(manifests: map<string, JsFacts>, f: Facts): Config {
    var root := Dir(f.path);
    var entries := if f.catalogs.Decoded? then f.catalogs.value else map[];
    if f.detector == JsYarnrc then
      Config(f.path, root, Yarn, if root in manifests then manifests[root].workspaces else [], entries, f.catalogs.Malformed?)
    else
      Config(f.path, root, Pnpm, if f.catalogs.Decoded? && f.pnpm.Decoded? then f.pnpm.value else [], entries,
             f.catalogs.Malformed? || f.pnpm.Malformed?)
  }

  function ConfigsOf(manifests: map<string, JsFacts>, facts: seq<Facts>): map<string, seq<Config>> {
    if facts == [] then map[]
    else
      var sofar, f := ConfigsOf(manifests, Init(facts)), Last(facts);
      if !IsConfig(f) then sofar
      else sofar[Dir(f.path) := (if Dir(f.path) in sofar then sofar[Dir(f.path)] else []) + [ConfigOf(manifests, f)]]
  }

  function CatalogsOf(m: Matcher, facts: seq<Facts>): Catalogs {
    Catalogs(m, ConfigsOf(ManifestsOf(facts), facts), ManifestsOf(facts))
  }

  function FactsOf(sources: seq<SourceResult>): (r: seq<Facts>)
    ensures |r| == |sources| && forall i :: 0 <= i < |r| ==> r[i] == sources[i].facts
  {
    seq(|sources|, i requires 0 <= i < |sources| => sources[i].facts)
  }

  method CollectCatalogs(m: Matcher, facts: seq<Facts>) returns (cs: Catalogs)
    ensures cs == CatalogsOf(m, facts)
  {
    var manifests: map<string, JsFacts> := map[];
    for n := 0 to |facts|
      invariant manifests == ManifestsOf(facts[..n])
    {
      assert Init(facts[..n + 1]) == facts[..n];
      var f := facts[n];
      if f.detector == Js && f.js.Decoded? {
        manifests := manifests[Dir(f.path) := f.js.value];
      }
    }
    assert facts[..|facts|] == facts;
    var configs: map<string, seq<Config>> := map[];
    for n := 0 to |facts|
      invariant configs == ConfigsOf(manifests, facts[..n])
    {
      assert Init(facts[..n + 1]) == facts[..n];
      var f := facts[n];
      if !IsConfig(f) {
        continue;
      }
      var config := ConfigOf(manifests, f);
      configs := configs[config.root := (if config.root in configs then configs[config.root] else []) + [config]];
    }
    cs := Catalogs(m, configs, manifests);
  }

  /** Every package.json source is rewritten, every other source is left as it was. */
  method ResolveJavaScriptCatalogs(m: Matcher, rules: Rules, sources: seq<SourceResult>)
    requires forall i, j :: 0 <= i < j < |sources| ==> sources[i] != sources[j]
    modifies sources
    ensures var cs := CatalogsOf(m, FactsOf(sources));
            forall i :: 0 <= i < |sources| ==>
              sources[i].State() == if sources[i].facts.detector == Js
                                    then ResolveReport(rules, cs, Dir(sources[i].facts.path), old(sources[i].State()))
                                    else old(sources[i].State())
  {
    hide ResolveReport;
    var facts := FactsOf(sources);
    var cs := CollectCatalogs(m, facts);
    for n := 0 to |sources|
      invariant forall i :: 0 <= i < n ==>
        sources[i].State() == if sources[i].facts.detector == Js
                              then ResolveReport(rules, cs, Dir(sources[i].facts.path), old(sources[i].State()))
                              else old(sources[i].State())
      invariant forall i :: n <= i < |sources| ==> sources[i].State() == old(sources[i].State())
    {
      if sources[n].facts.detector == Js {
        sources[n].ResolveReferences(rules, cs);
      }
    }
  }

  // ----- what resolution keeps -----

  /** Count, order, raw text, package type, relationship, group and scope stay; other dependencies stay whole. */
  lemma ResolutionKeeps(rules: Rules, cs: Catalogs, root: string, r: Report, i: nat)
    requires i < |r.dependencies|
    ensures var was, after := r.dependencies[i], ResolveReport(rules, cs, root, r);
            && |after.dependencies| == |r.dependencies| && after.presence == r.presence
            && var now := after.dependencies[i];
               && now.raw == was.raw && now.packageType == was.packageType && now.relationship == was.relationship
               && now.group == was.group && now.scope == was.scope
               && (!IsReference(was) ==> now == was)
               && r.diagnostics <= after.diagnostics
  {
    hide OwnerOf, FlatMap, Complaints, Looked, TableName, Understood, ReferenceAttributes, IsReference;
    assert ResolveReport(rules, cs, root, r).dependencies[i] == After(rules, cs, root)(r.dependencies[i]);
  }

  /** The raw text is a catalog reference to the table written after the prefix. */
  predicate RefersTo(d: Dependency, written: string) {
    d.raw == d.name + ("@" + ("catalog:" + written)) || (!HasPrefix(d.raw, d.name + "@") && d.raw == "catalog:" + written)
  }

  lemma RefersIff(d: Dependency, written: string)
    ensures RefersTo(d, written) <==> IsReference(d) && WrittenName(d) == written
  {
    var start := d.name + "@";
    Assoc(d.name, "@", "catalog:" + written);
    if HasPrefix(d.raw, start) {
      assert d.raw == start + SpecifierOf(d);
      if IsReference(d) { SplitPrefix(SpecifierOf(d), "catalog:"); }
      assert d.raw == start + ("catalog:" + written) ==> d.raw[|start|..] == "catalog:" + written;
    } else if IsReference(d) {
      SplitPrefix(d.raw, "catalog:");
    }
    assert ("catalog:" + written)[|"catalog:"|..] == written;
  }

  /** The configuration has a target for the name in the table; only pnpm reads a missing table name as `default`. */
  predicate Targets(c: Config, written: string, name: string, target: string) {
    var table := if written == "" && c.manager == Pnpm then "default" else written;
    table in c.catalogs && name in c.catalogs[table] && c.catalogs[table][name] == target
  }

  /** A target that can be used: no reference itself, and understood. */
  predicate Usable(rules: Rules, name: string, target: string) {
    !("catalog:" <= target) && rules.read(name, target).origin != ""
  }

  /** An unresolved reference makes the extraction partial and says so in a warning; without one neither extraction nor
      diagnostics change, and each reference becomes what it resolves to. */
  lemma UnresolvedIsPartial(rules: Rules, cs: Catalogs, root: string, r: Report)
    ensures var after := ResolveReport(rules, cs, root, r);
            && (forall i :: 0 <= i < |r.dependencies| ==>
                  var o := Resolve(rules, cs, root, r.dependencies[i]);
                  after.dependencies[i] == if o.Plain? then r.dependencies[i] else o.value)
            && (if exists d :: d in r.dependencies && Resolve(rules, cs, root, d).Unresolved? then
                  after.extraction == Partial && |after.diagnostics| > |r.diagnostics|
                  && forall x :: x in after.diagnostics[|r.diagnostics|..] ==>
                       x.severity == Warning && x.code == "javascript-catalog-unresolved"
                else after.extraction == r.extraction && after.diagnostics == r.diagnostics)
  {
    hide Resolve, FlatMap, Complaints;
    var complaints := FlatMap(Complaints(rules, cs, root), r.dependencies);
    var after := ResolveReport(rules, cs, root, r);
    assert after.diagnostics[|r.diagnostics|..] == complaints;
    ComplaintsIff(rules, cs, root, r.dependencies);
    assert r.diagnostics + [] == r.diagnostics;
  }

  lemma ComplaintsIff(rules: Rules, cs: Catalogs, root: string, ds: seq<Dependency>)
    ensures FlatMap(Complaints(rules, cs, root), ds) != [] <==> exists d :: d in ds && Resolve(rules, cs, root, d).Unresolved?
    ensures forall x :: x in FlatMap(Complaints(rules, cs, root), ds) ==>
              x.severity == Warning && x.code == "javascript-catalog-unresolved"
  {
    OneWarningEach(rules, cs, root, ds);
    hide Resolve, FlatMap, Complaints;
    var complaints := FlatMap(Complaints(rules, cs, root), ds);
    if complaints != [] { assert complaints[0] in complaints; }
  }

  lemma CodeInFull()
    ensures UNRESOLVED == "javascript-catalog-unresolved"
  {
    assert "catalog" + ("-" + "unresolved") == "catalog-unresolved";
  }

  /** A reference resolves exactly when a configuration owns the manifest, its table has an entry for the
      name, and that entry is an understood specifier that is not itself a reference. */
  lemma ResolvesIff(rules: Rules, cs: Catalogs, root: string, d: Dependency)
    requires CleanPath(root)
    ensures Resolve(rules, cs, root, d).Resolved? <==>
            exists written, owner, c, target ::
              RefersTo(d, written) && Owns(cs, root, owner, c) && Targets(c, written, d.name, target) && Usable(rules, d.name, target)
  {
    hide OwnerOf, Owns, CleanPath, RefersTo;
    RefersIff(d, WrittenName(d));
    if Resolve(rules, cs, root, d).Resolved? {
      var c := OwnerOf(cs, root).config;
      OwnedIff(cs, root, c);
      var owner :| Owns(cs, root, owner, c);
      assert Targets(c, WrittenName(d), d.name, Looked(c.catalogs, TableName(d, c), d.name).value);
    }
    if written, owner, c, target :| (RefersTo(d, written) && Owns(cs, root, owner, c) && Targets(c, written, d.name, target)
                                     && Usable(rules, d.name, target)) {
      RefersIff(d, written);
      OwnedIff(cs, root, c);
      assert Looked(c.catalogs, TableName(d, c), d.name) == Some(target);
    }
  }

  // ----- what a scan knows of catalogs -----

  /** The last package.json of a directory that could be read. */
  ghost predicate LastManifest(facts: seq<Facts>, d: string, n: nat) {
    && n < |facts| && facts[n].detector == Js && facts[n].js.Decoded? && Dir(facts[n].path) == d
    && forall k :: n < k < |facts| && facts[k].detector == Js && facts[k].js.Decoded? ==> Dir(facts[k].path) != d
  }

  lemma {:induction false} ManifestsExact(facts: seq<Facts>, d: string)
    ensures d in ManifestsOf(facts) <==> exists n: nat :: LastManifest(facts, d, n)
    ensures forall n: nat :: LastManifest(facts, d, n) ==> ManifestsOf(facts)[d] == facts[n].js.value
  {
    hide Dir;
    if facts != [] {
      var init, last := Init(facts), Last(facts);
      ManifestsExact(init, d);
      if last.detector == Js && last.js.Decoded? && Dir(last.path) == d {
        assert LastManifest(facts, d, |init|);
      } else {
        forall n: nat ensures LastManifest(facts, d, n) <==> LastManifest(init, d, n) {
          assert forall k :: 0 <= k < |init| ==> facts[k] == init[k];
        }
      }
    }
  }

  /** The n-th file is the only catalog configuration of its directory. */
  ghost predicate OnlyConfig(facts: seq<Facts>, d: string, n: nat) {
    && n < |facts| && facts[n].detector in {JsPnpmWorkspace, JsYarnrc} && Dir(facts[n].path) == d
    && forall k :: 0 <= k < |facts| && k != n && facts[k].detector in {JsPnpmWorkspace, JsYarnrc} ==> Dir(facts[k].path) != d
  }

  ghost predicate NoConfig(facts: seq<Facts>, d: string) {
    forall k :: 0 <= k < |facts| && facts[k].detector in {JsPnpmWorkspace, JsYarnrc} ==> Dir(facts[k].path) != d
  }

  lemma {:induction false} ConfigsExact(manifests: map<string, JsFacts>, facts: seq<Facts>, d: string)
    ensures d in ConfigsOf(manifests, facts) ==> ConfigsOf(manifests, facts)[d] != []
    ensures d !in ConfigsOf(manifests, facts) <==> NoConfig(facts, d)
    ensures forall n: nat :: OnlyConfig(facts, d, n) ==>
              d in ConfigsOf(manifests, facts) && ConfigsOf(manifests, facts)[d] == [ConfigOf(manifests, facts[n])]
    ensures d in ConfigsOf(manifests, facts) && |ConfigsOf(manifests, facts)[d]| == 1 ==> exists n: nat :: OnlyConfig(facts, d, n)
  {
    hide Dir, ConfigOf;
    if facts != [] {
      var init, last := Init(facts), Last(facts);
      ConfigsExact(manifests, init, d);
      assert forall k :: 0 <= k < |init| ==> facts[k] == init[k];
      if IsConfig(last) && Dir(last.path) == d {
        assert facts[|init|] == last;
        forall n: nat | OnlyConfig(facts, d, n) ensures n == |init| && NoConfig(init, d) {
        }
        if NoConfig(init, d) {
          assert OnlyConfig(facts, d, |init|);
          assert [] + [ConfigOf(manifests, last)] == [ConfigOf(manifests, last)];
        }
      } else {
        assert NoConfig(facts, d) <==> NoConfig(init, d);
        forall n: nat ensures OnlyConfig(facts, d, n) <==> OnlyConfig(init, d, n) {
        }
      }
    }
  }

  /** How a configuration file reads: pnpm takes its patterns from the file itself, yarn from the package.json beside
      it, and a file that cannot be decoded is broken. */
  ghost predicate ReadsAs(facts: seq<Facts>, f: Facts, c: Config) {
    && c.path == f.path && c.root == Dir(f.path)
    && (f.catalogs.Decoded? ==> c.catalogs == f.catalogs.value)
    && (f.detector == JsPnpmWorkspace ==>
          && c.manager == Pnpm && (c.broken <==> f.catalogs.Malformed? || f.pnpm.Malformed?)
          && (!c.broken ==> c.patterns == f.pnpm.value))
    && (f.detector == JsYarnrc ==>
          && c.manager == Yarn && (c.broken <==> f.catalogs.Malformed?)
          && (forall n: nat :: LastManifest(facts, c.root, n) ==> c.patterns == facts[n].js.value.workspaces)
          && ((forall n: nat :: !LastManifest(facts, c.root, n)) ==> c.patterns == []))
  }

  /** The collected catalogs: what each directory's package.json says, and one configuration for each directory
      with exactly one configuration file. */
  lemma CollectedExactly(m: Matcher, facts: seq<Facts>, d: string)
    ensures var cs := CatalogsOf(m, facts);
            && cs.m == m
            && (d in cs.manifests <==> exists n: nat :: LastManifest(facts, d, n))
            && (forall n: nat :: LastManifest(facts, d, n) ==> cs.manifests[d] == facts[n].js.value)
            && (d in cs.configs && cs.configs[d] != [] <==> !NoConfig(facts, d))
            && ((exists c :: cs.At(d) == [c]) <==> exists n: nat :: OnlyConfig(facts, d, n))
            && (forall n: nat, c :: OnlyConfig(facts, d, n) && cs.At(d) == [c] ==> ReadsAs(facts, facts[n], c))
  {
    hide Dir, ManifestsOf, ConfigsOf, LastManifest;
    var cs := CatalogsOf(m, facts);
    ManifestsExact(facts, d);
    ConfigsExact(ManifestsOf(facts), facts, d);
    if d in cs.configs && |cs.configs[d]| == 1 { assert cs.At(d) == [cs.configs[d][0]]; }
    forall n: nat, c | OnlyConfig(facts, d, n) && cs.At(d) == [c] ensures ReadsAs(facts, facts[n], c) {
      assert cs.At(d) == [ConfigOf(ManifestsOf(facts), facts[n])] && [c][0] == c;
      ReadsOne(facts, facts[n]);
    }
  }

  lemma ReadsOne(facts: seq<Facts>, f: Facts)
    requires f.detector in {JsPnpmWorkspace, JsYarnrc}
    ensures ReadsAs(facts, f, ConfigOf(ManifestsOf(facts), f))
  {
    hide Dir, ManifestsOf, LastManifest;
    ManifestsExact(facts, Dir(f.path));
  }

  /** What every reference records: the table it names and the configuration that owns it. */
  function Recorded(written: string, c: Config): map<string, string> {
    map["catalog_name" := if written == "" then "default" else written, "catalog_source" := c.path]
  }

  /** An owned reference becomes the target's dependency under its own raw text, type, relationship, group and scope, or keeps
      all but its attributes; either way these record table, owner and target. */
  lemma ResolvedCarries(rules: Rules, cs: Catalogs, root: string, d: Dependency, written: string, owner: string, c: Config)
    requires CleanPath(root) && RefersTo(d, written) && Owns(cs, root, owner, c)
    ensures forall target :: Targets(c, written, d.name, target) ==>
              var reading := rules.read(d.name, target);
              var attributes := Recorded(written, c)["catalog_specifier" := target];
              Resolve(rules, cs, root, d) ==
              if Usable(rules, d.name, target)
              then Resolved(Dependency(d.packageType, d.raw, reading.name, "", reading.constraint, rules.vers(d.packageType, reading.constraint),
                                       d.group, reading.origin, d.relationship, d.scope, reading.attributes + attributes))
              else Unresolved(d.(attributes := attributes))
    ensures (forall target :: !Targets(c, written, d.name, target)) ==>
              Resolve(rules, cs, root, d) == Unresolved(d.(attributes := Recorded(written, c)))
  {
    hide Owns, CleanPath, RefersTo, OwnerOf;
    RefersIff(d, written);
    OwnedIff(cs, root, c);
    var target := Looked(c.catalogs, TableName(d, c), d.name);
    assert target.Some? ==> Targets(c, written, d.name, target.value);
    assert ReferenceAttributes(d, Some(c)) == Recorded(written, c);
  }

  /** A reference that nothing owns stays as it is but for attributes that name its table. */
  lemma UnownedStays(rules: Rules, cs: Catalogs, root: string, d: Dependency, written: string)
    requires CleanPath(root) && RefersTo(d, written) && forall owner, c :: !Owns(cs, root, owner, c)
    ensures var o := Resolve(rules, cs, root, d);
            && o.Unresolved? && o.value.(attributes := d.attributes) == d
            && "catalog_name" in o.value.attributes && o.value.attributes["catalog_name"] == (if written == "" then "default" else written)
            && o.value.attributes.Keys <= {"catalog_name", "catalog_source"}
  {
    hide Owns, CleanPath, RefersTo, OwnerOf;
    RefersIff(d, written);
    if OwnerOf(cs, root).Owned? { OwnedIff(cs, root, OwnerOf(cs, root).config); }
  }

  /** The warning starts with the group and name of the dependency. */
  predicate Concerns(x: Diagnostic, d: Dependency) {
    x.severity == Warning && x.code == "javascript-catalog-unresolved" && d.group + ("." + (d.name + ": cannot resolve ")) <= x.message
  }

  lemma ComplaintConcerns(d: Dependency)
    ensures Concerns(Complaint(d), d)
  {
    hide SpecifierOf;
    CodeInFull();
    assert Complaint(d).message == (d.group + ("." + (d.name + ": cannot resolve "))) + SpecifierOf(d);
  }

  lemma WarningConcerns(rules: Rules, cs: Catalogs, root: string, ds: seq<Dependency>, x: Diagnostic) returns (d: Dependency)
    requires x in FlatMap(Complaints(rules, cs, root), ds)
    ensures d in ds && Resolve(rules, cs, root, d).Unresolved? && Concerns(x, d)
  {
    hide Resolve, Complaint, Concerns, FlatMap;
    FlatMapMember(Complaints(rules, cs, root), ds, x);
    d :| d in ds && x in Complaints(rules, cs, root)(d);
    ConcernsReference(rules, cs, root, d);
  }

  lemma UnresolvedWarned(rules: Rules, cs: Catalogs, root: string, ds: seq<Dependency>, d: Dependency) returns (x: Diagnostic)
    requires d in ds && Resolve(rules, cs, root, d).Unresolved?
    ensures x in FlatMap(Complaints(rules, cs, root), ds) && Concerns(x, d)
  {
    hide Resolve, Complaint, Concerns, FlatMap;
    x := Complaint(Resolve(rules, cs, root, d).value);
    assert x in Complaints(rules, cs, root)(d);
    FlatMapMember(Complaints(rules, cs, root), ds, x);
    ConcernsReference(rules, cs, root, d);
  }

  /** The reference in the message is the original one: only attributes differ. */
  lemma ConcernsReference(rules: Rules, cs: Catalogs, root: string, d: Dependency)
    requires Resolve(rules, cs, root, d).Unresolved?
    ensures Concerns(Complaint(Resolve(rules, cs, root, d).value), d)
  {
    hide Complaint, OwnerOf;
    ComplaintConcerns(Resolve(rules, cs, root, d).value);
  }

  /** There are exactly as many new warnings as unresolved references, and each kind concerns the other. */
  lemma {:induction false} OneWarningEach(rules: Rules, cs: Catalogs, root: string, ds: seq<Dependency>)
    ensures |FlatMap(Complaints(rules, cs, root), ds)| == |Filter((d: Dependency) => Resolve(rules, cs, root, d).Unresolved?, ds)|
    ensures forall x :: x in FlatMap(Complaints(rules, cs, root), ds) ==>
              exists d :: d in ds && Resolve(rules, cs, root, d).Unresolved? && Concerns(x, d)
    ensures forall d :: d in ds && Resolve(rules, cs, root, d).Unresolved? ==>
              exists x :: x in FlatMap(Complaints(rules, cs, root), ds) && Concerns(x, d)
  {
    hide Resolve, Complaints, Concerns, FlatMap;
    forall x | x in FlatMap(Complaints(rules, cs, root), ds)
      ensures exists d :: d in ds && Resolve(rules, cs, root, d).Unresolved? && Concerns(x, d) {
      var d := WarningConcerns(rules, cs, root, ds, x);
    }
    forall d | d in ds && Resolve(rules, cs, root, d).Unresolved?
      ensures exists x :: x in FlatMap(Complaints(rules, cs, root), ds) && Concerns(x, d) {
      var x := UnresolvedWarned(rules, cs, root, ds, d);
    }
    CountsAgree(rules, cs, root, ds);
  }

  lemma {:induction false} CountsAgree(rules: Rules, cs: Catalogs, root: string, ds: seq<Dependency>)
    ensures |FlatMap(Complaints(rules, cs, root), ds)| == |Filter((d: Dependency) => Resolve(rules, cs, root, d).Unresolved?, ds)|
  {
    hide Resolve;
    if ds != [] {
      CountsAgree(rules, cs, root, Init(ds));
    }
  }

  lemma HyphenJoins(a: string, b: string)
    requires ValidCode(a) && ValidCode(b)
    ensures ValidCode(a + ("-" + b))
  {
    var code := a + ("-" + b);
    assert code[0] == a[0] && code[|code| - 1] == b[|b| - 1];
    forall i | 0 <= i < |code| ensures WordChar(code[i]) || code[i] == '-' {
      if i > |a| { assert code[i] == b[i - |a| - 1]; }
    }
    forall i | 0 < i < |code| ensures WordChar(code[i - 1]) || WordChar(code[i]) {
      if i < |a| {
        assert code[i - 1] == a[i - 1] && code[i] == a[i];
      } else if i > |a| + 1 {
        assert code[i - 1] == b[i - 1 - |a| - 1] && code[i] == b[i - |a| - 1];
      }
    }
  }

  predicate LowerWord(word: string) { word != "" && forall i :: 0 <= i < |word| ==> 'a' <= word[i] <= 'z' || '0' <= word[i] <= '9' }

  function Hyphenated(words: seq<string>): string
    requires words != []
  {
    if |words| == 1 then words[0] else words[0] + ("-" + Hyphenated(words[1..]))
  }

  ghost predicate HyphenatedWords(code: string) {
    exists words :: words != [] && (forall w :: w in words ==> LowerWord(w)) && code == Hyphenated(words)
  }

  lemma {:induction false} WordsAreValid(words: seq<string>)
    requires words != [] && forall w :: w in words ==> LowerWord(w)
    ensures ValidCode(Hyphenated(words))
  {
    assert words[0] in words;
    assert LowerWord(words[0]);
    if |words| > 1 {
      WordsAreValid(words[1..]);
      HyphenJoins(words[0], Hyphenated(words[1..]));
    }
  }

  lemma {:induction false} ValidHasWords(code: string) returns (words: seq<string>)
    requires ValidCode(code)
    ensures words != [] && (forall w :: w in words ==> LowerWord(w)) && code == Hyphenated(words)
    decreases |code|
  {
    if i :| 0 <= i < |code| && code[i] == '-' && forall j :: 0 <= j < i ==> code[j] != '-' {
      var first, rest := code[..i], code[i + 1..];
      assert WordChar(code[i + 1]);
      assert ValidCode(rest) by {
        forall k | 0 < k < |rest| ensures WordChar(rest[k - 1]) || WordChar(rest[k]) { assert rest[k - 1] == code[i + k]; }
      }
      var more := ValidHasWords(rest);
      words := [first] + more;
      assert words[1..] == more && code == first + ("-" + rest);
    } else {
      NoHyphen(code, 0);
      words := [code];
    }
  }

  lemma {:induction false} NoHyphen(code: string, from: nat)
    requires from <= |code| && forall j :: 0 <= j < from ==> code[j] != '-'
    requires !exists i :: 0 <= i < |code| && code[i] == '-' && forall j :: 0 <= j < i ==> code[j] != '-'
    ensures forall j :: 0 <= j < |code| ==> code[j] != '-'
    decreases |code| - from
  {
    if from < |code| { NoHyphen(code, from + 1); }
  }

  /** A diagnostic code is valid exactly when it is lower-case words joined by single hyphens. */
  lemma ValidCodeIff(code: string)
    ensures ValidCode(code) <==> HyphenatedWords(code)
  {
    if ValidCode(code) {
      var words := ValidHasWords(code);
    }
    if words :| words != [] && (forall w :: w in words ==> LowerWord(w)) && code == Hyphenated(words) {
      WordsAreValid(words);
    }
  }

  lemma BlankIff(c: char)
    ensures BlankChar(c) <==> c in WHITE_SPACE
  {
  }

  lemma SpeaksIff(d: Diagnostic)
    ensures ValidDiagnostic(d) <==> Speaks(d)
  {
    hide ValidCode, HyphenatedWords, BlankChar;
    ValidCodeIff(d.code);
    forall c ensures BlankChar(c) <==> c in WHITE_SPACE { BlankIff(c); }
  }

  lemma UnresolvedIsValidCode()
    ensures ValidCode(UNRESOLVED)
  {
    assert ValidCode("javascript");
    assert ValidCode("catalog");
    assert ValidCode("unresolved");
    hide ValidCode;
    HyphenJoins("catalog", "unresolved");
    HyphenJoins("javascript", "catalog" + ("-" + "unresolved"));
  }

  lemma ComplaintIsValid(d: Dependency)
    ensures Speaks(Complaint(d))
  {
    SpeaksIff(Complaint(d));
    hide SpecifierOf, ValidCode;
    UnresolvedIsValidCode();
    var c := Complaint(d);
    assert !BlankChar(c.message[|d.group|]);
  }

  /** A valid result stays valid. */
  lemma ResolutionKeepsValidity(rules: Rules, cs: Catalogs, root: string, r: Report)
    requires ValidReport(r)
    ensures ValidReport(ResolveReport(rules, cs, root, r))
  {
    hide Resolve, Speaks;
    var after := ResolveReport(rules, cs, root, r);
    var f := Complaints(rules, cs, root);
    var complaints := FlatMap(f, r.dependencies);
    forall x | x in complaints ensures Speaks(x) && x.severity == Warning {
      FlatMapMember(f, r.dependencies, x);
      var d :| d in r.dependencies && x in f(d);
      ComplaintIsValid(Resolve(rules, cs, root, d).value);
    }
    assert after.diagnostics == r.diagnostics + complaints;
    if complaints != [] {
      assert complaints[0] in after.diagnostics;
      assert r.dependencies != [];
    } else {
      assert after.diagnostics == r.diagnostics;
    }
  }

  /** Under a pnpm owner `catalog:` and `catalog:default` mean the same. */
  lemma PnpmDefaultAlias(rules: Rules, cs: Catalogs, root: string, d: Dependency)
    requires OwnerOf(cs, root).Owned? && OwnerOf(cs, root).config.manager == Pnpm
    requires d.raw == d.name + "@" + CATALOG
    ensures var long := d.(raw := d.name + "@" + "catalog:default");
            var a, b := Resolve(rules, cs, root, d), Resolve(rules, cs, root, long);
            !a.Plain? && !b.Plain? && a.Resolved? == b.Resolved? && b.value == a.value.(raw := long.raw)
  {
    hide OwnerOf;
    var long := d.(raw := d.name + "@" + "catalog:default");
    assert SpecifierOf(d) == CATALOG && SpecifierOf(long) == "catalog:default";
    assert WrittenName(d) == "" && WrittenName(long) == "default";
  }
}
