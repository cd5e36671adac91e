/** Path globs, workspace patterns and the search for the workspace that owns a project. */
module Workspaces {
  import opened Text

  /** `path.Match` on one segment, false on a malformed pattern; a library call, so a parameter. */
  type Matcher = (string, string) -> bool

  datatype Manager = NoManager | Npm | Pnpm | Yarn | Uv | Cargo

  datatype Workspace = Workspace(root: string, patterns: seq<string>, manager: Manager)

  // ----- globs -----

  predicate MatchSegments(m: Matcher, pattern: seq<string>, path: seq<string>)
    decreases |pattern|
  {
    if pattern == [] then path == []
    else if pattern[0] == "**" then
      || MatchSegments(m, pattern[1..], path)
      || exists n :: 1 <= n <= |path| && MatchSegments(m, pattern[1..], path[n..])
    else path != [] && m(pattern[0], path[0]) && MatchSegments(m, pattern[1..], path[1..])
  }

  /** One pattern segment takes path[lo..hi]: any run for "**", exactly one matching segment otherwise. */
  ghost predicate Takes(m: Matcher, segment: string, path: seq<string>, lo: nat, hi: nat) {
    lo <= hi <= |path| && (segment == "**" || (hi == lo + 1 && m(segment, path[lo])))
  }

  /** Consecutive pattern segments take consecutive pieces of the whole path. */
  ghost predicate Splits(m: Matcher, pattern: seq<string>, path: seq<string>, cuts: seq<nat>) {
    && |cuts| == |pattern| + 1
    && cuts[0] == 0 && cuts[|pattern|] == |path|
    && (forall k :: 0 <= k < |pattern| ==> Takes(m, pattern[k], path, cuts[k], cuts[k + 1]))
  }

  /** The matcher accepts exactly the paths that can be split along the pattern. */
  lemma GlobMatchesIffSplits(m: Matcher, pattern: seq<string>, path: seq<string>)
    ensures MatchSegments(m, pattern, path) <==> exists cuts :: Splits(m, pattern, path, cuts)
  {
    if MatchSegments(m, pattern, path) {
      var cuts := SplitOfMatch(m, pattern, path);
    }
    if cuts :| Splits(m, pattern, path, cuts) {
      MatchOfSplit(m, pattern, path, cuts);
    }
  }

  ghost function Shift(cuts: seq<nat>, offset: nat): (r: seq<nat>)
    ensures |r| == |cuts| && forall k :: 0 <= k < |cuts| ==> r[k] == cuts[k] + offset
  {
    seq(|cuts|, k requires 0 <= k < |cuts| => cuts[k] + offset)
  }

  lemma PrependCut(m: Matcher, pattern: seq<string>, path: seq<string>, taken: nat, rest: seq<nat>)
    requires pattern != [] && taken <= |path|
    requires pattern[0] == "**" || (taken == 1 && m(pattern[0], path[0]))
    requires Splits(m, pattern[1..], path[taken..], rest)
    ensures Splits(m, pattern, path, [0] + Shift(rest, taken))
  {
    var cuts := [0] + Shift(rest, taken);
    forall k | 0 <= k < |pattern| ensures Takes(m, pattern[k], path, cuts[k], cuts[k + 1]) {
      if k > 0 {
        assert Takes(m, pattern[1..][k - 1], path[taken..], rest[k - 1], rest[k - 1 + 1]);
      }
    }
  }

  lemma {:induction false} SplitOfMatch(m: Matcher, pattern: seq<string>, path: seq<string>) returns (cuts: seq<nat>)
    requires MatchSegments(m, pattern, path)
    ensures Splits(m, pattern, path, cuts)
    decreases |pattern|
  {
    if pattern == [] {
      cuts := [0];
    } else {
      var taken: nat := 1;
      if pattern[0] == "**" {
        if MatchSegments(m, pattern[1..], path) {
          taken := 0;
          assert path[0..] == path;
        } else {
          taken :| 1 <= taken <= |path| && MatchSegments(m, pattern[1..], path[taken..]);
        }
      }
      var rest := SplitOfMatch(m, pattern[1..], path[taken..]);
      PrependCut(m, pattern, path, taken, rest);
      cuts := [0] + Shift(rest, taken);
    }
  }

  lemma {:induction false} MatchOfSplit(m: Matcher, pattern: seq<string>, path: seq<string>, cuts: seq<nat>)
    requires Splits(m, pattern, path, cuts)
    ensures MatchSegments(m, pattern, path)
    decreases |pattern|
  {
    if pattern != [] {
      var taken := cuts[1];
      assert Takes(m, pattern[0], path, cuts[0], cuts[0 + 1]);
      var rest := DropCut(m, pattern, path, cuts);
      MatchOfSplit(m, pattern[1..], path[taken..], rest);
      assert path[0..] == path;
    }
  }

  lemma DropCut(m: Matcher, pattern: seq<string>, path: seq<string>, cuts: seq<nat>) returns (rest: seq<nat>)
    requires Splits(m, pattern, path, cuts) && pattern != []
    ensures Splits(m, pattern[1..], path[cuts[1]..], rest)
  {
    var taken := cuts[1];
    assert Takes(m, pattern[0], path, cuts[0], cuts[0 + 1]);
    CutsGrow(m, pattern, path, cuts, 1);
    rest := seq(|pattern|, k requires 0 <= k < |pattern| => (assert cuts[k + 1] >= taken; cuts[k + 1] - taken as nat));
    forall k | 0 <= k < |pattern| - 1 ensures Takes(m, pattern[1..][k], path[taken..], rest[k], rest[k + 1]) {
      assert Takes(m, pattern[k + 1], path, cuts[k + 1], cuts[k + 1 + 1]);
    }
  }

  lemma {:induction false} CutsGrow(m: Matcher, pattern: seq<string>, path: seq<string>, cuts: seq<nat>, from: nat)
    requires Splits(m, pattern, path, cuts) && from <= |pattern|
    ensures forall k :: from <= k <= |pattern| ==> cuts[from] <= cuts[k]
    decreases |pattern| - from
  {
    if from < |pattern| {
      assert Takes(m, pattern[from], path, cuts[from], cuts[from + 1]);
      CutsGrow(m, pattern, path, cuts, from + 1);
    }
  }

  /** A doubled "**" anywhere in a pattern means the same as a single one. */
  lemma {:induction false} RepeatedStarsCollapse(m: Matcher, before: seq<string>, after: seq<string>, path: seq<string>)
    ensures MatchSegments(m, before + ["**", "**"] + after, path) == MatchSegments(m, before + ["**"] + after, path)
    decreases |before|
  {
    var one, two := ["**"] + after, ["**", "**"] + after;
    if before == [] {
      assert before + ["**", "**"] + after == two && before + ["**"] + after == one;
      assert two[1..] == one && one[1..] == after;
      if n :| 1 <= n <= |path| && MatchSegments(m, one, path[n..]) {
        var tail := path[n..];
        if !MatchSegments(m, after, tail) {
          var k :| 1 <= k <= |tail| && MatchSegments(m, after, tail[k..]);
          assert tail[k..] == path[n + k..];
        }
      }
    } else {
      var longer, shorter := before[1..] + ["**", "**"] + after, before[1..] + ["**"] + after;
      assert (before + ["**", "**"] + after)[1..] == longer && (before + ["**"] + after)[1..] == shorter;
      forall n | 0 <= n <= |path| ensures MatchSegments(m, longer, path[n..]) == MatchSegments(m, shorter, path[n..]) {
        RepeatedStarsCollapse(m, before[1..], after, path[n..]);
      }
      assert path[0..] == path;
      DoubledTail(m, before[0], longer, shorter, path);
      assert before + ["**", "**"] + after == [before[0]] + longer && before + ["**"] + after == [before[0]] + shorter;
    }
  }

  lemma DoubledTail(m: Matcher, head: string, a: seq<string>, b: seq<string>, path: seq<string>)
    requires forall n :: 0 <= n <= |path| ==> MatchSegments(m, a, path[n..]) == MatchSegments(m, b, path[n..])
    ensures MatchSegments(m, [head] + a, path) == MatchSegments(m, [head] + b, path)
  {
    assert path[0..] == path;
    assert ([head] + a)[1..] == a && ([head] + b)[1..] == b;
  }

  predicate PathGlobMatches(m: Matcher, pattern: string, path: string) {
    MatchSegments(m, Segments(pattern), Segments(path))
  }

  // ----- workspace patterns: the last matching pattern decides -----

  predicate Excludes(pattern: string) { HasPrefix(pattern, "!") }

  predicate PatternApplies(m: Matcher, pattern: string, relative: string) {
    PathGlobMatches(m, TrimPrefix(pattern, "!"), relative)
  }

  /** Some including pattern applies and no later pattern applies. */
  predicate Accepts(m: Matcher, patterns: seq<string>, relative: string) {
    exists k :: 0 <= k < |patterns| && PatternApplies(m, patterns[k], relative) && !Excludes(patterns[k])
             && forall later :: k < later < |patterns| && PatternApplies(m, patterns[later], relative) ==>
                  !Excludes(patterns[later])
  }

  method WorkspaceMatches(m: Matcher, relative: string, patterns: seq<string>) returns (matched: bool)
    ensures matched == Accepts(m, patterns, relative)
  {
    matched := false;
    for n := 0 to |patterns|
      invariant matched == Accepts(m, patterns[..n], relative)
    {
      var exclude := HasPrefix(patterns[n], "!");
      var pattern := TrimPrefix(patterns[n], "!");
      LastPatternDecides(m, patterns[..n], patterns[n], relative);
      assert patterns[..n] + [patterns[n]] == patterns[..n + 1];
      if PathGlobMatches(m, pattern, relative) {
        matched := !exclude;
      }
    }
    assert patterns[..|patterns|] == patterns;
  }

  /** The last pattern that applies decides, and nothing is accepted without one. */
  lemma LastPatternDecides(m: Matcher, patterns: seq<string>, last: string, relative: string)
    ensures !Accepts(m, [], relative)
    ensures Accepts(m, patterns + [last], relative) ==
            if PatternApplies(m, last, relative) then !("!" <= last) else Accepts(m, patterns, relative)
  {
    hide PatternApplies;
    assert Excludes(last) <==> "!" <= last;
    hide Excludes;
    var n, longer := |patterns|, patterns + [last];
    if Accepts(m, patterns, relative) && !(PatternApplies(m, last, relative) && Excludes(last)) {
      var k :| 0 <= k < n && PatternApplies(m, patterns[k], relative) && !Excludes(patterns[k])
            && forall later :: k < later < n && PatternApplies(m, patterns[later], relative) ==> !Excludes(patterns[later]);
      assert PatternApplies(m, longer[k], relative);
      forall later | k < later < n + 1 && PatternApplies(m, longer[later], relative) ensures !Excludes(longer[later]) {
        if later < n { assert PatternApplies(m, patterns[later], relative); }
      }
    }
    if PatternApplies(m, last, relative) && !Excludes(last) {
      assert PatternApplies(m, longer[n], relative);
    }
    if Accepts(m, longer, relative) {
      var k :| 0 <= k < n + 1 && PatternApplies(m, longer[k], relative) && !Excludes(longer[k])
            && forall later :: k < later < n + 1 && PatternApplies(m, longer[later], relative) ==> !Excludes(longer[later]);
      assert PatternApplies(m, longer[n], relative) ==> !Excludes(longer[n]);
      if k < n {
        assert PatternApplies(m, patterns[k], relative);
        forall later | k < later < n && PatternApplies(m, patterns[later], relative) ensures !Excludes(patterns[later]) {
          assert PatternApplies(m, longer[later], relative);
        }
      }
    }
  }

  /** What a pattern accepts, on the text: behind an optional "!" its slash-free segments take consecutive
      pieces of the path's. */
  lemma PatternAppliesIff(m: Matcher, pattern: string, relative: string)
    ensures var glob := if pattern != "" && pattern[0] == '!' then pattern[1..] else pattern;
            PatternApplies(m, pattern, relative) <==>
            exists segments, path, cuts ::
              && segments != [] && SlashFree(segments) && Slashed(segments) == glob
              && path != [] && SlashFree(path) && Slashed(path) == relative
              && Splits(m, segments, path, cuts)
  {
    hide Splits, Segments, SlashFree, Slashed, MatchSegments;
    var glob := TrimPrefix(pattern, "!");
    assert HasPrefix(pattern, "!") <==> pattern != "" && pattern[0] == '!';
    SegmentsIff(glob, Segments(glob));
    SegmentsIff(relative, Segments(relative));
    GlobMatchesIffSplits(m, Segments(glob), Segments(relative));
    if segments, path, cuts :| (segments != [] && SlashFree(segments) && Slashed(segments) == glob
                                && path != [] && SlashFree(path) && Slashed(path) == relative
                                && Splits(m, segments, path, cuts)) {
      SegmentsIff(glob, segments);
      SegmentsIff(relative, path);
    }
  }

  // ----- ownership -----

  predicate IsAncestorRoot(ancestor: string, child: string) {
    if ancestor == "" then child != "" else HasPrefix(child, ancestor + "/")
  }

  function Relative(ancestor: string, child: string): string {
    TrimPrefix(TrimPrefix(child, ancestor), "/")
  }

  /** The workspace lies strictly above the project and its patterns take the project in. */
  predicate Claims(m: Matcher, w: Workspace, project: string) {
    w.root != project && IsAncestorRoot(w.root, project) && Accepts(m, w.patterns, Relative(w.root, project))
  }

  /** The path below an ancestor is what has to be joined to it. */
  lemma RelativeJoins(ancestor: string, child: string)
    requires IsAncestorRoot(ancestor, child) && CleanPath(child)
    ensures JoinRoot(ancestor, Relative(ancestor, child)) == child && Relative(ancestor, child) != ""
  {
    if ancestor == "" {
      assert !HasPrefix(child, "/") && child[0..] == child;
    } else {
      var below := child[|ancestor| + 1..];
      SplitPrefix(child, ancestor + "/");
      Assoc(ancestor, "/", below);
      assert HasPrefix(child, ancestor) && child[|ancestor|..] == "/" + below && ("/" + below)[1..] == below;
      assert below == "" ==> child == ancestor + "/";
    }
  }

  lemma JoinedIsBelow(ancestor: string, below: string)
    requires below != "" && CleanPath(JoinRoot(ancestor, below))
    ensures IsAncestorRoot(ancestor, JoinRoot(ancestor, below)) && ancestor != JoinRoot(ancestor, below)
    ensures Relative(ancestor, JoinRoot(ancestor, below)) == below
  {
    var child := JoinRoot(ancestor, below);
    if ancestor == "" {
      assert !HasPrefix(child, "/") && child[0..] == child;
    } else {
      Assoc(ancestor, "/", below);
      assert child[|ancestor|..] == "/" + below && ("/" + below)[1..] == below;
    }
  }

  /** The workspace takes the project in: some path below its root leads there and is accepted. */
  ghost predicate TakesIn(m: Matcher, w: Workspace, project: string) {
    exists below :: below != "" && project == JoinRoot(w.root, below) && Accepts(m, w.patterns, below)
  }

  lemma ClaimsIff(m: Matcher, w: Workspace, project: string)
    requires CleanPath(project)
    ensures Claims(m, w, project) <==> TakesIn(m, w, project)
  {
    hide Accepts, Relative, IsAncestorRoot, JoinRoot, CleanPath;
    if Claims(m, w, project) {
      RelativeJoins(w.root, project);
    }
    if below :| below != "" && project == JoinRoot(w.root, below) && Accepts(m, w.patterns, below) {
      JoinedIsBelow(w.root, below);
    }
  }

  /** The root of the deepest claiming workspace, or the project itself when nothing claims it. */
  ghost predicate IsOwner(m: Matcher, project: string, spaces: set<Workspace>, owner: string) {
    if exists w :: w in spaces && Claims(m, w, project) then
      && (exists w :: w in spaces && Claims(m, w, project) && w.root == owner)
      && (forall w :: w in spaces && Claims(m, w, project) ==> |w.root| <= |owner|)
    else owner == project
  }

  ghost function Elements<T>(s: seq<T>): set<T> { set x | x in s }

  lemma AncestorsOfEqualLength(a: string, b: string, child: string)
    requires IsAncestorRoot(a, child) && IsAncestorRoot(b, child) && |a| == |b|
    ensures a == b
  {
    if a != "" {
      assert a == (a + "/")[..|a|] == child[..|a|];
      assert b == (b + "/")[..|b|] == child[..|b|];
    }
  }

  /** The owner depends only on which workspaces claim the project: not on their order, not on
      repetitions, and not on workspaces that claim nothing. */
  lemma OwnerUnique(m: Matcher, project: string, spaces: set<Workspace>, others: set<Workspace>, a: string, b: string)
    requires IsOwner(m, project, spaces, a) && IsOwner(m, project, others, b)
    requires forall w :: Claims(m, w, project) ==> (w in spaces <==> w in others)
    ensures a == b
  {
    if exists w :: w in spaces && Claims(m, w, project) {
      var v :| v in spaces && Claims(m, v, project) && v.root == a;
      assert v in others;
      var w :| w in others && Claims(m, w, project) && w.root == b;
      assert w in spaces;
      AncestorsOfEqualLength(v.root, w.root, project);
    }
  }

  lemma {:induction false} OwnerExists(m: Matcher, project: string, spaces: set<Workspace>)
    ensures exists owner :: IsOwner(m, project, spaces, owner)
  {
    var claiming := set w | w in spaces && Claims(m, w, project);
    if claiming == {} {
      assert forall w :: w in spaces && Claims(m, w, project) ==> w in claiming;
      assert IsOwner(m, project, spaces, project);
    } else {
      var best := Deepest(claiming);
      assert best in spaces && Claims(m, best, project);
      assert forall w :: w in spaces && Claims(m, w, project) ==> w in claiming;
      assert IsOwner(m, project, spaces, best.root);
    }
  }

  ghost function Deepest(spaces: set<Workspace>): (best: Workspace)
    requires spaces != {}
    ensures best in spaces && forall w :: w in spaces ==> |w.root| <= |best.root|
  {
    var w :| w in spaces;
    if spaces == {w} then w
    else
      var rest := Deepest(spaces - {w});
      assert forall v :: v in spaces ==> v == w || v in spaces - {w};
      if |rest.root| < |w.root| then w else rest
  }

  ghost function Owner(m: Matcher, project: string, spaces: set<Workspace>): (owner: string)
    ensures IsOwner(m, project, spaces, owner)
  {
    OwnerExists(m, project, spaces);
    var owner :| IsOwner(m, project, spaces, owner);
    owner
  }

  /** The owner of a project is the deepest root of a workspace that takes it in, and the project itself when
      there is none. */
  lemma OwnerIff(m: Matcher, project: string, spaces: set<Workspace>, owner: string)
    requires CleanPath(project)
    ensures owner == Owner(m, project, spaces) <==>
            || (owner == project && forall w :: w in spaces ==> !TakesIn(m, w, project))
            || exists w :: w in spaces && TakesIn(m, w, project) && w.root == owner
                           && forall other :: other in spaces && TakesIn(m, other, project) ==> |other.root| <= |owner|
  {
    hide Claims, TakesIn;
    forall w ensures Claims(m, w, project) <==> TakesIn(m, w, project) { ClaimsIff(m, w, project); }
    if IsOwner(m, project, spaces, owner) {
      OwnerUnique(m, project, spaces, spaces, owner, Owner(m, project, spaces));
    }
  }

  method WorkspaceOwner(m: Matcher, project: string, spaces: seq<Workspace>) returns (owner: string)
    ensures owner == Owner(m, project, Elements(spaces))
  {
    owner := project;
    var bestLength := -1;
    for n := 0 to |spaces|
      invariant bestLength == -1 ==> owner == project
      invariant bestLength >= 0 ==> bestLength == |owner| && exists k :: 0 <= k < n && Claims(m, spaces[k], project) && spaces[k].root == owner
      invariant bestLength >= -1
      invariant forall k :: 0 <= k < n && Claims(m, spaces[k], project) ==> |spaces[k].root| <= bestLength
    {
      var w := spaces[n];
      if w.root == project || !IsAncestorRoot(w.root, project) {
        continue;
      }
      var relative := TrimPrefix(TrimPrefix(project, w.root), "/");
      var matches := WorkspaceMatches(m, relative, w.patterns);
      assert matches == Claims(m, w, project);
      if matches && |w.root| > bestLength {
        owner := w.root;
        bestLength := |w.root|;
      }
    }
    if bestLength >= 0 {
      var k :| 0 <= k < |spaces| && Claims(m, spaces[k], project) && spaces[k].root == owner;
      assert spaces[k] in Elements(spaces);
    }
    OwnerUnique(m, project, Elements(spaces), Elements(spaces), owner, Owner(m, project, Elements(spaces)));
  }

  /** A workspace without patterns never becomes an owner. */
  lemma PatternlessNeverOwns(m: Matcher, project: string, spaces: set<Workspace>, others: set<Workspace>)
    requires forall w: Workspace :: w.patterns != [] ==> (w in spaces <==> w in others)
    ensures Owner(m, project, spaces) == Owner(m, project, others)
  {
    OwnerUnique(m, project, spaces, others, Owner(m, project, spaces), Owner(m, project, others));
  }

  lemma OwnerIsSelfOrWorkspace(m: Matcher, project: string, spaces: set<Workspace>)
    ensures var owner := Owner(m, project, spaces);
            owner == project || exists w :: w in spaces && w.root == owner
  {
    hide Claims;
  }

  /** Ownership is one step from the project, never outside its ancestors. */
  lemma OwnerIsSelfOrAncestor(m: Matcher, project: string, spaces: set<Workspace>)
    ensures var owner := Owner(m, project, spaces);
            owner == project || (IsAncestorRoot(owner, project) && |owner| < |project|)
  {
    var owner := Owner(m, project, spaces);
    if owner != project && owner != "" {
      assert |owner + "/"| <= |project|;
    }
  }
}
