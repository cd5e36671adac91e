/** Requirements files that include one another: collection with a shared set of active files. */
module Requirements {
  import opened Text

  /** A logical line after comments and continuations are gone. */
  datatype Line = Include(target: string) | Declared(raw: string) | Ignored

  datatype Message = Cycle(path: string, target: string) | Unreadable(target: string)

  datatype Collected = Collected(dependencies: seq<string>, messages: seq<Message>) {
    function Plus(more: Collected): Collected {
      Collected(dependencies + more.dependencies, messages + more.messages)
    }
  }

  /** The readable files, and how an include target is resolved against the including file. */
  datatype Tree = Tree(files: map<string, seq<Line>>, resolve: (string, string) -> string)

  const NOTHING := Collected([], [])

  // ----- what a walk over lines collects -----

  function Collect(t: Tree, path: string, lines: seq<Line>, active: set<string>): Collected
    decreases |t.files.Keys - active|, |lines|
  {
    if lines == [] then NOTHING
    else Contribution(t, path, lines[0], active).Plus(Collect(t, path, lines[1..], active))
  }

  function Contribution(t: Tree, path: string, line: Line, active: set<string>): Collected
    decreases |t.files.Keys - active|, 0
  {
    match line
    case Ignored => NOTHING
    case Declared(raw) => Collected([raw], [])
    case Include(target) =>
      var included := t.resolve(path, target);
      if included in active then Collected([], [Cycle(included, target)])
      else if included !in t.files then Collected([], [Unreadable(target)])
      else
        Narrowed(t.files.Keys, active, included);
        Collect(t, included, t.files[included], active + {included})
  }

  /** Each nested file is readable and was not active: the measure falls even on cyclic trees. */
  lemma Narrowed(keys: set<string>, active: set<string>, included: string)
    requires included in keys && included !in active
    ensures |keys - (active + {included})| < |keys - active|
  {
    assert keys - (active + {included}) == (keys - active) - {included};
  }

  class Collector {
    const tree: Tree
    var active: set<string>

    constructor (tree: Tree)
      ensures this.tree == tree && active == {}
    {
      this.tree := tree;
      active := {};
    }

    /** Adds the file to the active set for the duration of the call and takes it out again. */
    method CollectDependencies(path: string, lines: seq<Line>) returns (r: Collected)
      requires path !in active
      modifies this
      ensures active == old(active)
      ensures r == Collect(tree, path, lines, old(active) + {path})
      decreases |tree.files.Keys - (active + {path})|
    {
      active := active + {path};
      ghost var inside := active;
      r := NOTHING;
      for n := 0 to |lines|
        invariant active == inside
        invariant Collect(tree, path, lines, inside) == r.Plus(Collect(tree, path, lines[n..], inside))
      {
        assert lines[n..][0] == lines[n] && lines[n..][1..] == lines[n + 1..];
        ghost var before, rest := r, Collect(tree, path, lines[n + 1..], inside);
        match lines[n] {
          case Ignored =>
          case Declared(raw) =>
            r := Collected(r.dependencies + [raw], r.messages);
          case Include(target) =>
            var included := tree.resolve(path, target);
            if included in active {
              r := Collected(r.dependencies, r.messages + [Cycle(included, target)]);
            } else if included !in tree.files {
              r := Collected(r.dependencies, r.messages + [Unreadable(target)]);
            } else {
              Narrowed(tree.files.Keys, active, included);
              var nested := CollectDependencies(included, tree.files[included]);
              r := r.Plus(nested);
            }
        }
        PlusAssociates(before, Contribution(tree, path, lines[n], inside), rest);
        assert r == before.Plus(Contribution(tree, path, lines[n], inside));
      }
      assert r.Plus(NOTHING) == r;
      active := active - {path};
    }
  }

  lemma PlusAssociates(a: Collected, b: Collected, c: Collected)
    ensures a.Plus(b).Plus(c) == a.Plus(b.Plus(c))
    ensures NOTHING.Plus(a) == a && a.Plus(NOTHING) == a
  {
  }

  // ----- the include graph -----

  predicate Edge(t: Tree, from: string, to: string) {
    from in t.files && to in t.files && exists k :: 0 <= k < |t.files[from]| && t.files[from][k].Include?
                                               && t.resolve(from, t.files[from][k].target) == to
  }

  ghost predicate Walk(t: Tree, nodes: seq<string>) {
    nodes != [] && forall i :: 0 <= i < |nodes| - 1 ==> Edge(t, nodes[i], nodes[i + 1])
  }

  ghost predicate Repeats(nodes: seq<string>) {
    exists i, j :: 0 <= i < j < |nodes| && nodes[i] == nodes[j]
  }

  ghost predicate ReportsCycle(r: Collected) { exists m :: m in r.messages && m.Cycle? }

  // ----- plain inlining -----

  /** In-order inlining with no notion of active files, nested at most `depth` deep. */
  function Inlined(t: Tree, path: string, lines: seq<Line>, depth: nat): Collected
    decreases depth, |lines|
  {
    if lines == [] then NOTHING else InlinedLine(t, path, lines[0], depth).Plus(Inlined(t, path, lines[1..], depth))
  }

  function InlinedLine(t: Tree, path: string, line: Line, depth: nat): Collected
    decreases depth, 0
  {
    match line
    case Ignored => NOTHING
    case Declared(raw) => Collected([raw], [])
    case Include(target) =>
      var included := t.resolve(path, target);
      if included !in t.files then Collected([], [Unreadable(target)])
      else if depth == 0 then NOTHING
      else Inlined(t, included, t.files[included], depth - 1)
  }

  lemma PlusReports(a: Collected, b: Collected)
    ensures ReportsCycle(a.Plus(b)) <==> ReportsCycle(a) || ReportsCycle(b)
  {
    if m :| m in a.messages && m.Cycle? { assert m in a.Plus(b).messages; }
    if m :| m in b.messages && m.Cycle? { assert m in a.Plus(b).messages; }
  }

  lemma ActiveIsReported(t: Tree, path: string, line: Line, active: set<string>)
    ensures line.Include? && t.resolve(path, line.target) in active ==> ReportsCycle(Contribution(t, path, line, active))
  {
    if line.Include? && t.resolve(path, line.target) in active {
      assert Cycle(t.resolve(path, line.target), line.target) in Contribution(t, path, line, active).messages;
    }
  }

  /** Without a cycle message collection is plain inlining, however deep the inlining may go. */
  lemma {:induction false} NoCycleIsInlining(t: Tree, path: string, lines: seq<Line>, active: set<string>, depth: nat)
    requires !ReportsCycle(Collect(t, path, lines, active)) && depth >= |t.files.Keys - active|
    ensures Collect(t, path, lines, active) == Inlined(t, path, lines, depth)
    decreases |t.files.Keys - active|, |lines|
  {
    if lines != [] {
      PlusReports(Contribution(t, path, lines[0], active), Collect(t, path, lines[1..], active));
      NoCycleIsInlining(t, path, lines[1..], active, depth);
      LineIsInlined(t, path, lines[0], active, depth);
    }
  }

  lemma {:induction false} LineIsInlined(t: Tree, path: string, line: Line, active: set<string>, depth: nat)
    requires !ReportsCycle(Contribution(t, path, line, active)) && depth >= |t.files.Keys - active|
    ensures Contribution(t, path, line, active) == InlinedLine(t, path, line, depth)
    decreases |t.files.Keys - active|, 0
  {
    ActiveIsReported(t, path, line, active);
    if line.Include? {
      var included := t.resolve(path, line.target);
      if included !in active && included in t.files {
        Narrowed(t.files.Keys, active, included);
        NoCycleIsInlining(t, included, t.files[included], active + {included}, depth - 1);
      }
    }
  }

  // ----- when a cycle is reported -----

  /** A chain of fresh nested files leads from `lines` to an include of `found`, which is active there. */
  ghost predicate Reaches(t: Tree, path: string, lines: seq<Line>, active: set<string>, chain: seq<string>,
                          found: Message)
    requires found.Cycle?
    decreases |chain|
  {
    if chain == [] then
      Include(found.target) in lines && t.resolve(path, found.target) == found.path && found.path in active
    else
      var next := chain[0];
      next !in active && next in t.files && (exists target :: Include(target) in lines && t.resolve(path, target) == next)
      && Reaches(t, next, t.files[next], active + {next}, chain[1..], found)
  }

  /** A cycle message appears exactly when an include on some chain of nested files names a file that is
      active at that point. */
  lemma {:induction false} CycleMessageIff(t: Tree, path: string, lines: seq<Line>, active: set<string>, found: Message)
    requires found.Cycle?
    ensures found in Collect(t, path, lines, active).messages <==> exists chain :: Reaches(t, path, lines, active, chain, found)
    decreases |t.files.Keys - active|, |lines|
  {
    if lines == [] {
      assert forall chain :: !Reaches(t, path, [], active, chain, found);
    } else {
      var line, rest := lines[0], lines[1..];
      assert forall x :: x in lines <==> x == line || x in rest;
      CycleMessageIff(t, path, rest, active, found);
      ContributionIff(t, path, line, active, found);
      if chain :| Reaches(t, path, lines, active, chain, found) {
        ReachesSplit(t, path, line, rest, lines, active, chain, found);
      }
      if chain :| Reaches(t, path, [line], active, chain, found) {
        ReachesSplit(t, path, line, rest, lines, active, chain, found);
      }
      if chain :| Reaches(t, path, rest, active, chain, found) {
        ReachesSplit(t, path, line, rest, lines, active, chain, found);
      }
    }
  }

  lemma ReachesSplit(t: Tree, path: string, line: Line, rest: seq<Line>, lines: seq<Line>, active: set<string>,
                     chain: seq<string>, found: Message)
    requires found.Cycle? && forall x :: x in lines <==> x == line || x in rest
    ensures Reaches(t, path, lines, active, chain, found) <==>
            Reaches(t, path, [line], active, chain, found) || Reaches(t, path, rest, active, chain, found)
  {
  }

  lemma {:induction false} ContributionIff(t: Tree, path: string, line: Line, active: set<string>, found: Message)
    requires found.Cycle?
    ensures found in Contribution(t, path, line, active).messages <==>
            exists chain :: Reaches(t, path, [line], active, chain, found)
    decreases |t.files.Keys - active|, 0
  {
    if line.Include? {
      var included := t.resolve(path, line.target);
      if included !in active && included in t.files {
        Narrowed(t.files.Keys, active, included);
        CycleMessageIff(t, included, t.files[included], active + {included}, found);
        NestedChains(t, path, line, active, included, found);
      } else {
        assert Reaches(t, path, [line], active, [], found) <==> line.target == found.target && included == found.path && included in active;
        assert forall chain :: Reaches(t, path, [line], active, chain, found) ==> chain == [];
      }
    } else {
      assert forall chain :: !Reaches(t, path, [line], active, chain, found);
    }
  }

  lemma NestedChains(t: Tree, path: string, line: Line, active: set<string>, included: string, found: Message)
    requires found.Cycle? && line.Include? && included == t.resolve(path, line.target)
    requires included !in active && included in t.files
    ensures (exists chain :: Reaches(t, path, [line], active, chain, found)) <==>
            (exists chain :: Reaches(t, included, t.files[included], active + {included}, chain, found))
  {
    if chain :| Reaches(t, path, [line], active, chain, found) {
      assert chain != [] && chain[0] == included;
      assert Reaches(t, included, t.files[included], active + {included}, chain[1..], found);
    }
    if chain :| Reaches(t, included, t.files[included], active + {included}, chain, found) {
      var longer := [included] + chain;
      assert longer[1..] == chain;
      assert Include(line.target) in [line];
      assert Reaches(t, path, [line], active, longer, found);
    }
  }

  // ----- in terms of walks in the include graph -----

  lemma LineGivesEdge(t: Tree, path: string, line: Line)
    requires path in t.files && line in t.files[path] && line.Include? && t.resolve(path, line.target) in t.files
    ensures Edge(t, path, t.resolve(path, line.target))
  {
    var k :| 0 <= k < |t.files[path]| && t.files[path][k] == line;
  }

  lemma EdgeFromLine(t: Tree, from: string, target: string)
    requires from in t.files && Include(target) in t.files[from] && t.resolve(from, target) in t.files
    ensures Edge(t, from, t.resolve(from, target))
  {
    LineGivesEdge(t, from, Include(target));
  }

  /** A chain below `path`, with the active files as ancestors, is a walk that ends where it has been. */
  lemma {:induction false} ChainIsWalk(t: Tree, before: seq<string>, path: string, active: set<string>,
                                       chain: seq<string>, found: Message)
    returns (walk: seq<string>)
    requires found.Cycle? && path in t.files && Reaches(t, path, t.files[path], active, chain, found)
    requires Walk(t, before + [path]) && active == (set x | x in before + [path]) && active <= t.files.Keys
    ensures Walk(t, walk) && Repeats(walk) && walk[0] == (before + [path])[0]
    decreases |chain|
  {
    var sofar := before + [path];
    if chain == [] {
      EdgeFromLine(t, path, found.target);
      walk := sofar + [found.path];
      assert forall i :: 0 <= i < |walk| - 1 ==> Edge(t, walk[i], walk[i + 1]);
      var i :| 0 <= i < |sofar| && sofar[i] == found.path;
      assert walk[i] == walk[|sofar|];
    } else {
      var next := chain[0];
      var target :| Include(target) in t.files[path] && t.resolve(path, target) == next;
      EdgeFromLine(t, path, target);
      var longer := sofar + [next];
      assert forall i :: 0 <= i < |longer| - 1 ==> Edge(t, longer[i], longer[i + 1]);
      walk := ChainIsWalk(t, sofar, next, active + {next}, chain[1..], found);
    }
  }

  /** The shortest repeating prefix of a walk is a chain. */
  lemma {:induction false} WalkIsChain(t: Tree, before: seq<string>, path: string, rest: seq<string>,
                                       active: set<string>)
    returns (chain: seq<string>, found: Message)
    requires Walk(t, before + [path] + rest) && active == (set x | x in before + [path])
    requires path in t.files && !Repeats(before + [path]) && Repeats(before + [path] + rest)
    ensures found.Cycle? && Reaches(t, path, t.files[path], active, chain, found)
    decreases |rest|
  {
    var sofar, whole := before + [path], before + [path] + rest;
    assert rest != [] by { assert rest == [] ==> whole == sofar; }
    var next := rest[0];
    assert whole[|before|] == path && whole[|before| + 1] == next;
    assert Edge(t, path, next);
    var k :| 0 <= k < |t.files[path]| && t.files[path][k].Include? && t.resolve(path, t.files[path][k].target) == next;
    var target := t.files[path][k].target;
    assert t.files[path][k] == Include(target);
    if next in active {
      chain, found := [], Cycle(next, target);
    } else {
      assert sofar + [next] + rest[1..] == whole;
      assert !Repeats(sofar + [next]) by { NoNewRepeat(sofar, next); }
      var more;
      more, found := WalkIsChain(t, sofar, next, rest[1..], active + {next});
      chain := [next] + more;
      assert chain[1..] == more;
    }
  }

  lemma NoNewRepeat(nodes: seq<string>, next: string)
    requires !Repeats(nodes) && next !in nodes
    ensures !Repeats(nodes + [next])
  {
    var longer := nodes + [next];
    forall i, j | 0 <= i < j < |longer| ensures longer[i] != longer[j] {
      assert longer[i] == nodes[i];
    }
  }

  /** Collecting a readable root reports a cycle exactly when the include graph has one reachable from it. */
  lemma CycleReportedIffReachable(t: Tree, root: string)
    requires root in t.files
    ensures ReportsCycle(Collect(t, root, t.files[root], {root})) <==>
            exists walk :: Walk(t, walk) && walk[0] == root && Repeats(walk)
  {
    var lines := t.files[root];
    if m :| m in Collect(t, root, lines, {root}).messages && m.Cycle? {
      CycleMessageIff(t, root, lines, {root}, m);
      var chain :| Reaches(t, root, lines, {root}, chain, m);
      ChainBelowRoot(t, root, chain, m);
    }
    if walk :| Walk(t, walk) && walk[0] == root && Repeats(walk) {
      var chain, found := WalkFromRoot(t, root, walk);
      MessageFromChain(t, root, lines, {root}, chain, found);
    }
  }

  /** On a tree without a reachable cycle collection is exactly in-order inlining. */
  lemma AcyclicIsInlining(t: Tree, root: string, depth: nat)
    requires root in t.files && depth >= |t.files|
    requires forall walk :: Walk(t, walk) && walk[0] == root ==> !Repeats(walk)
    ensures Collect(t, root, t.files[root], {root}) == Inlined(t, root, t.files[root], depth)
  {
    hide Collect, Inlined;
    CycleReportedIffReachable(t, root);
    FewerKeys(t.files.Keys, {root});
    NoCycleIsInlining(t, root, t.files[root], {root}, depth);
  }

  lemma FewerKeys(keys: set<string>, active: set<string>)
    ensures |keys - active| <= |keys|
  {
    assert keys == (keys - active) + (keys * active);
  }

  lemma MessageFromChain(t: Tree, path: string, lines: seq<Line>, active: set<string>, chain: seq<string>,
                         found: Message)
    requires found.Cycle? && Reaches(t, path, lines, active, chain, found)
    ensures ReportsCycle(Collect(t, path, lines, active))
  {
    hide Collect;
    CycleMessageIff(t, path, lines, active, found);
    var messages := Collect(t, path, lines, active).messages;
    assert found in messages && found.Cycle?;
  }

  lemma ChainBelowRoot(t: Tree, root: string, chain: seq<string>, found: Message)
    requires root in t.files && found.Cycle? && Reaches(t, root, t.files[root], {root}, chain, found)
    ensures exists walk :: Walk(t, walk) && walk[0] == root && Repeats(walk)
  {
    var start: seq<string> := [];
    assert start + [root] == [root];
    var walk := ChainIsWalk(t, start, root, {root}, chain, found);
  }

  lemma WalkFromRoot(t: Tree, root: string, walk: seq<string>) returns (chain: seq<string>, found: Message)
    requires root in t.files && Walk(t, walk) && walk[0] == root && Repeats(walk)
    ensures found.Cycle? && Reaches(t, root, t.files[root], {root}, chain, found)
  {
    var start: seq<string> := [];
    assert start + [root] == [root];
    assert start + [root] + walk[1..] == walk;
    chain, found := WalkIsChain(t, start, root, walk[1..], {root});
  }

  /** The root's own entry in the tree is never read: it is active throughout. */
  lemma {:induction false} RootEntryUnread(t: Tree, root: string, other: seq<Line>, path: string, lines: seq<Line>,
                                        active: set<string>)
    requires root in active
    ensures Collect(t.(files := t.files[root := other]), path, lines, active) == Collect(t, path, lines, active)
    decreases |t.files.Keys - active|, |lines|
  {
    var u := t.(files := t.files[root := other]);
    if lines != [] {
      RootEntryUnread(t, root, other, path, lines[1..], active);
      if lines[0].Include? {
        var included := t.resolve(path, lines[0].target);
        if included !in active && included in t.files {
          Narrowed(t.files.Keys, active, included);
          RootEntryUnread(t, root, other, included, t.files[included], active + {included});
        }
      }
    }
  }
}
