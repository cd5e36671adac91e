/** The evidence the policy checks work on, and how it is collected from the detected sources. */
module Evidence {
  import opened Text
  import opened Lists
  import opened Workspaces

  datatype Detector =
    | Js | JsPnpmWorkspace | JsYarnrc | JsNpmLock | JsNpmShrinkwrap | JsPnpmLock | JsYarn
    | PythonPyproject | PythonUv | RustCargo | RustCargoLock | OtherDetector(id: string)

  /** What a library decoder makes of a file's content. */
  datatype Decoded<+T> = Decoded(value: T) | Malformed(detail: string)

  datatype JsFacts = JsFacts(manager: Manager, managerInvalid: bool, workspaces: seq<string>)
  datatype CargoFacts = CargoFacts(hasDeps: bool, hasPackage: bool, application: bool, workspaces: seq<string>)
  datatype UvFacts = UvFacts(hasDeps: bool, managed: bool, workspaces: seq<string>)

  /** A detected source; `js`, `pnpm` and `cargo` are what the three readers decode from its content. */
  datatype Source = Source(path: string, detector: Detector, present: bool,
                           js: Decoded<JsFacts>, pnpm: Decoded<seq<string>>, cargo: Decoded<CargoFacts>)

  /** A pyproject file collected for the uv check; a failed read counts as malformed. */
  datatype PolicyInput = PolicyInput(path: string, uv: Decoded<UvFacts>)

  datatype JsManifest = JsManifest(path: string, root: string, hasDeps: bool,
                                   manager: Manager, managerInvalid: bool, workspaces: seq<string>)
  datatype CargoManifest = CargoManifest(path: string, root: string, hasDeps: bool, hasPackage: bool,
                                         application: bool, workspaces: seq<string>)
  datatype UvManifest = UvManifest(path: string, root: string, hasDeps: bool, managed: bool, workspaces: seq<string>)
  datatype ParseError = ParseError(detector: Detector, path: string, detail: string)

  datatype Context = Context(sourceByPath: map<string, Source>, javascript: seq<JsManifest>, spaces: seq<Workspace>,
                             uv: seq<UvManifest>, cargo: seq<CargoManifest>, parseErrors: seq<ParseError>)
  {
    predicate Holds(path: string) { path in sourceByPath }

    /** The Path field of the looked-up source; a missing key yields the zero source. */
    function PathAt(path: string): string { if path in sourceByPath then sourceByPath[path].path else "" }

    ghost predicate Keyed() { forall p :: p in sourceByPath ==> sourceByPath[p].path == p }
  }

  // ----- what one source or policy input contributes -----

  function JsOf(s: Source): seq<JsManifest> {
    if s.detector == Js && s.js.Decoded? then
      [JsManifest(s.path, Dir(s.path), s.present, s.js.value.manager, s.js.value.managerInvalid, s.js.value.workspaces)]
    else []
  }

  function SpaceOf(s: Source): seq<Workspace> {
    if s.detector == JsPnpmWorkspace && s.pnpm.Decoded? then [Workspace(Dir(s.path), s.pnpm.value, Pnpm)]
    else if s.detector == JsYarnrc then [Workspace(Dir(s.path), [], Yarn)]
    else []
  }

  function CargoOf(discovered: set<string>): Source -> seq<CargoManifest> {
    (s: Source) =>
      if s.detector == RustCargo && s.cargo.Decoded? then
        var facts := s.cargo.value;
        [CargoManifest(s.path, Dir(s.path), facts.hasDeps, facts.hasPackage,
                       facts.application || JoinRoot(Dir(s.path), "src/main.rs") in discovered, facts.workspaces)]
      else []
  }

  function ErrorOf(s: Source): seq<ParseError> {
    match s.detector
    case Js => if s.js.Malformed? then [ParseError(Js, s.path, s.js.detail)] else []
    case JsPnpmWorkspace => if s.pnpm.Malformed? then [ParseError(JsPnpmWorkspace, s.path, s.pnpm.detail)] else []
    case RustCargo => if s.cargo.Malformed? then [ParseError(RustCargo, s.path, s.cargo.detail)] else []
    case _ => []
  }

  function UvOf(input: PolicyInput): seq<UvManifest> {
    if input.uv.Decoded? then
      [UvManifest(input.path, Dir(input.path), input.uv.value.hasDeps, input.uv.value.managed, input.uv.value.workspaces)]
    else []
  }

  function UvErrorOf(input: PolicyInput): seq<ParseError> {
    if input.uv.Malformed? then [ParseError(PythonPyproject, input.path, input.uv.detail)] else []
  }

  function DeclaredSpace(manifest: JsManifest): seq<Workspace> {
    if manifest.workspaces != [] then [Workspace(manifest.root, manifest.workspaces, manifest.manager)] else []
  }

  function PathMap(sources: seq<Source>): (r: map<string, Source>)
    ensures forall p :: p in r ==> r[p].path == p
  {
    if sources == [] then map[]
    else
      var s := Last(sources);
      PathMap(Init(sources))[s.path := s]
  }

  const JsPath := (x: JsManifest) => x.path
  const SpaceRoot := (x: Workspace) => x.root
  const UvPath := (x: UvManifest) => x.path
  const CargoPath := (x: CargoManifest) => x.path

  function ContextOf(sources: seq<Source>, inputs: seq<PolicyInput>, discovered: set<string>): Context {
    var manifests := FlatMap(JsOf, sources);
    Context(PathMap(sources),
            SortBy(JsPath, manifests),
            SortBy(SpaceRoot, FlatMap(SpaceOf, sources) + FlatMap(DeclaredSpace, manifests)),
            SortBy(UvPath, FlatMap(UvOf, inputs)),
            SortBy(CargoPath, FlatMap(CargoOf(discovered), sources)),
            FlatMap(ErrorOf, sources) + FlatMap(UvErrorOf, inputs))
  }

  method ReadSources(sources: seq<Source>, discovered: set<string>)
    returns (byPath: map<string, Source>, javascript: seq<JsManifest>, spaces: seq<Workspace>,
             cargo: seq<CargoManifest>, parseErrors: seq<ParseError>)
    ensures byPath == PathMap(sources)
    ensures javascript == FlatMap(JsOf, sources) && spaces == FlatMap(SpaceOf, sources)
    ensures cargo == FlatMap(CargoOf(discovered), sources) && parseErrors == FlatMap(ErrorOf, sources)
  {
    hide Dir, CargoOf, JsOf, FlatMap;
    byPath, javascript, spaces, cargo, parseErrors := map[], [], [], [], [];
    assert sources[..0] == [];
    FlatMapNil(JsOf);
    FlatMapNil(SpaceOf);
    FlatMapNil(CargoOf(discovered));
    FlatMapNil(ErrorOf);
    for n := 0 to |sources|
      invariant byPath == PathMap(sources[..n])
      invariant javascript == FlatMap(JsOf, sources[..n]) && spaces == FlatMap(SpaceOf, sources[..n])
      invariant cargo == FlatMap(CargoOf(discovered), sources[..n]) && parseErrors == FlatMap(ErrorOf, sources[..n])
    {
      var source := sources[n];
      assert Init(sources[..n + 1]) == sources[..n] && Last(sources[..n + 1]) == source;
      OnlyTheirDetector(source, discovered);
      FlatMapStep(JsOf, sources, n);
      FlatMapStep(SpaceOf, sources, n);
      FlatMapStep(CargoOf(discovered), sources, n);
      FlatMapStep(ErrorOf, sources, n);
      byPath := byPath[source.path := source];
      match source.detector {
        case Js =>
          javascript := javascript + JsOf(source);
          if source.js.Malformed? {
            parseErrors := parseErrors + [ParseError(Js, source.path, source.js.detail)];
          }
        case JsPnpmWorkspace =>
          if source.pnpm.Decoded? {
            spaces := spaces + [Workspace(Dir(source.path), source.pnpm.value, Pnpm)];
          } else {
            parseErrors := parseErrors + [ParseError(JsPnpmWorkspace, source.path, source.pnpm.detail)];
          }
        case JsYarnrc =>
          spaces := spaces + [Workspace(Dir(source.path), [], Yarn)];
        case RustCargo =>
          cargo := cargo + CargoOf(discovered)(source);
          if source.cargo.Malformed? {
            parseErrors := parseErrors + [ParseError(RustCargo, source.path, source.cargo.detail)];
          }
        case _ =>
      }
    }
    assert sources[..|sources|] == sources;
  }

  lemma OnlyTheirDetector(s: Source, discovered: set<string>)
    ensures s.detector != Js ==> JsOf(s) == []
    ensures s.detector != RustCargo ==> CargoOf(discovered)(s) == []
  {
  }

  method ReadPolicyInputs(inputs: seq<PolicyInput>) returns (uv: seq<UvManifest>, parseErrors: seq<ParseError>)
    ensures uv == FlatMap(UvOf, inputs) && parseErrors == FlatMap(UvErrorOf, inputs)
  {
    uv, parseErrors := [], [];
    for n := 0 to |inputs|
      invariant uv == FlatMap(UvOf, inputs[..n]) && parseErrors == FlatMap(UvErrorOf, inputs[..n])
    {
      FlatMapStep(UvOf, inputs, n);
      FlatMapStep(UvErrorOf, inputs, n);
      if inputs[n].uv.Malformed? {
        parseErrors := parseErrors + [ParseError(PythonPyproject, inputs[n].path, inputs[n].uv.detail)];
        continue;
      }
      uv := uv + UvOf(inputs[n]);
    }
    assert inputs[..|inputs|] == inputs;
  }

  method BuildEvaluationContext(sources: seq<Source>, inputs: seq<PolicyInput>, discovered: set<string>)
    returns (ctx: Context)
    ensures ctx == ContextOf(sources, inputs, discovered) && ctx.Keyed()
    ensures Ascending(JsPath, ctx.javascript) && Ascending(SpaceRoot, ctx.spaces)
    ensures Ascending(UvPath, ctx.uv) && Ascending(CargoPath, ctx.cargo)
  {
    hide FlatMap, SortBy, Ascending;
    FlatMapNil(DeclaredSpace);
    var byPath, javascript, spaces, cargo, parseErrors := ReadSources(sources, discovered);
    var uv, uvErrors := ReadPolicyInputs(inputs);
    ghost var ownSpaces := spaces;
    for n := 0 to |javascript|
      invariant spaces == ownSpaces + FlatMap(DeclaredSpace, javascript[..n])
    {
      FlatMapStep(DeclaredSpace, javascript, n);
      var manifest := javascript[n];
      if |manifest.workspaces| > 0 {
        spaces := spaces + [Workspace(manifest.root, manifest.workspaces, manifest.manager)];
      }
    }
    assert javascript[..|javascript|] == javascript;
    SortByAscends(JsPath, javascript);
    SortByAscends(SpaceRoot, spaces);
    SortByAscends(UvPath, uv);
    SortByAscends(CargoPath, cargo);
    return Context(byPath, SortBy(JsPath, javascript), SortBy(SpaceRoot, spaces), SortBy(UvPath, uv),
                   SortBy(CargoPath, cargo), parseErrors + uvErrors);
  }
}
