/** JavaScript `catalog:` references: who owns a manifest's catalog, and rewriting the references in place. */
module Catalog {
  import opened Text
  import opened Lists
  import opened Workspaces
  import opened Evidence

  type Entries = map<string, map<string, string>>

  /** A catalog configuration; `broken` stands for a parse error. */
  datatype Config = Config(path: string, root: string, manager: Manager, patterns: seq<string>, catalogs: Entries, broken: bool)

  /** What the scan knows: configurations per directory in source order, and one manifest per directory. */
  datatype Catalogs = Catalogs(m: Matcher, configs: map<string, seq<Config>>, manifests: map<string, JsFacts>) {
    function At(root: string): seq<Config> { if root in configs then configs[root] else [] }

    /** A missing manifest reads as the zero value. */
    function Manifest(root: string): JsFacts {
      if root in manifests then manifests[root] else JsFacts(NoManager, false, [])
    }

    predicate Agrees(facts: JsFacts, c: Config) {
      !facts.managerInvalid && (facts.manager == NoManager || facts.manager == c.manager)
    }

    predicate Member(c: Config, owner: string, root: string) {
      Accepts(m, c.patterns, Relative(owner, root))
    }

    /** A directory between the manifest and the owner does not cut them apart. */
    predicate Joins(c: Config, owner: string, between: string) {
      between in manifests ==>
        && manifests[between].workspaces == [] && manifests[between].manager == NoManager
        && !manifests[between].managerInvalid && Member(c, owner, between)
    }
  }

  // ----- the catalog owner -----

  datatype Refusal = NoConfiguration | Ambiguous | Unreadable | ManagerConflict | NotMember | Separated(between: string)

  datatype Ownership = Owned(config: Config) | Refused(nearest: Option<Config>, why: Refusal)

  /** The directories from `root` up to the scan root. */
  function Upward(root: string): (r: seq<string>)
    ensures r != [] && r[0] == root
    decreases |root|
  {
    if root == "" then [""] else [root] + Upward(Dir(root))
  }

  /** The first directory from `between` up to `owner` that cuts the manifest off. */
  function Separator(cs: Catalogs, c: Config, owner: string, between: string): Option<string>
    requires owner in Upward(between)
    decreases |between|
  {
    if between == owner then None
    else if !cs.Joins(c, owner, between) then Some(between)
    else Separator(cs, c, owner, Dir(between))
  }

  /** The verdict once `owner` is the nearest directory with any configuration. */
  function Verdict(cs: Catalogs, root: string, owner: string): Ownership
    requires owner in Upward(root) && cs.At(owner) != []
  {
    var c := cs.At(owner)[0];
    if |cs.At(owner)| != 1 then Refused(None, Ambiguous)
    else if c.broken then Refused(Some(c), Unreadable)
    else if !cs.Agrees(cs.Manifest(root), c) || !cs.Agrees(cs.Manifest(owner), c) then Refused(Some(c), ManagerConflict)
    else if owner == root then Owned(c)
    else if cs.Manifest(root).workspaces != [] || !cs.Member(c, owner, root) then Refused(Some(c), NotMember)
    else
      var cut := Separator(cs, c, owner, Dir(root));
      if cut.Some? then Refused(Some(c), Separated(cut.value)) else Owned(c)
  }

  function OwnerFrom(cs: Catalogs, root: string, from: string): Ownership
    requires forall d :: d in Upward(from) ==> d in Upward(root)
    decreases |from|
  {
    if cs.At(from) != [] then Verdict(cs, root, from)
    else if from == "" then Refused(None, NoConfiguration)
    else OwnerFrom(cs, root, Dir(from))
  }

  function OwnerOf(cs: Catalogs, root: string): Ownership { OwnerFrom(cs, root, root) }

  method NestedSeparator(cs: Catalogs, config: Config, owner: string, from: string) returns (cut: Option<string>)
    requires owner in Upward(from)
    ensures cut == Separator(cs, config, owner, from)
  {
    var between := from;
    while between != owner
      invariant owner in Upward(between)
      invariant Separator(cs, config, owner, from) == Separator(cs, config, owner, between)
      decreases |between|
    {
      if between in cs.manifests {
        var nested := cs.manifests[between];
        var accepted := WorkspaceMatches(cs.m, Relative(owner, between), config.patterns);
        if |nested.workspaces| > 0 || nested.manager != NoManager || nested.managerInvalid || !accepted {
          return Some(between);
        }
      }
      between := Dir(between);
    }
    cut := None;
  }

  method CatalogOwner(cs: Catalogs, root: string) returns (r: Ownership)
    ensures r == OwnerOf(cs, root)
  {
    hide Accepts, Separator, Relative;
    var owner := root;
    while true
      invariant forall d :: d in Upward(owner) ==> d in Upward(root)
      invariant OwnerOf(cs, root) == OwnerFrom(cs, root, owner)
      decreases |owner|
    {
      var candidates := cs.At(owner);
      if |candidates| > 0 {
        assert Upward(owner)[0] == owner && owner in Upward(root);
        if |candidates| != 1 {
          return Refused(None, Ambiguous);
        }
        var config := candidates[0];
        if config.broken {
          return Refused(Some(config), Unreadable);
        }
        if !cs.Agrees(cs.Manifest(root), config) || !cs.Agrees(cs.Manifest(owner), config) {
          return Refused(Some(config), ManagerConflict);
        }
        if owner != root {
          var member := WorkspaceMatches(cs.m, Relative(owner, root), config.patterns);
          if |cs.Manifest(root).workspaces| > 0 || !member {
            return Refused(Some(config), NotMember);
          }
          assert owner in Upward(Dir(root));
          var cut := NestedSeparator(cs, config, owner, Dir(root));
          if cut.Some? {
            return Refused(Some(config), Separated(cut.value));
          }
        }
        return Owned(config);
      }
      if owner == "" {
        return Refused(None, NoConfiguration);
      }
      owner := Dir(owner);
    }
  }

  // ----- ownership, stated on the list of directories -----

  /** The k-th directory up is the nearest one with any configuration. */
  ghost predicate NearestAt(cs: Catalogs, root: string, k: nat) {
    k < |Upward(root)| && cs.At(Upward(root)[k]) != [] && forall j :: 0 <= j < k ==> cs.At(Upward(root)[j]) == []
  }

  /** Everything that must hold at the nearest configured directory for `c` to own the manifest. */
  ghost predicate OwnsFrom(cs: Catalogs, root: string, k: nat, c: Config)
    requires k < |Upward(root)|
  {
    var owner := Upward(root)[k];
    && cs.At(owner) == [c] && !c.broken
    && cs.Agrees(cs.Manifest(root), c) && cs.Agrees(cs.Manifest(owner), c)
    && (k > 0 ==>
          && cs.Manifest(root).workspaces == [] && cs.Member(c, owner, root)
          && forall j :: 0 < j < k ==> cs.Joins(c, owner, Upward(root)[j]))
  }

  lemma {:induction false} UpwardShrinks(root: string)
    ensures forall i, j :: 0 <= i < j < |Upward(root)| ==> |Upward(root)[j]| < |Upward(root)[i]|
    decreases |root|
  {
    if root != "" {
      UpwardShrinks(Dir(root));
    }
  }

  lemma {:induction false} SeparatorIff(cs: Catalogs, c: Config, between: string, n: nat)
    requires n < |Upward(between)|
    ensures Separator(cs, c, Upward(between)[n], between) == None <==>
            forall j :: 0 <= j < n ==> cs.Joins(c, Upward(between)[n], Upward(between)[j])
    decreases n
  {
    hide Accepts, Relative, Dir;
    var whole := Upward(between);
    var owner := whole[n];
    UpwardShrinks(between);
    if n > 0 {
      var above := Upward(Dir(between));
      assert whole == [between] + above;
      SeparatorIff(cs, c, Dir(between), n - 1);
      hide Upward;
      assert between != owner && owner == above[n - 1];
      assert Separator(cs, c, owner, between) == None <==>
             cs.Joins(c, owner, whole[0]) && forall j :: 0 <= j < n - 1 ==> cs.Joins(c, owner, above[j]);
      hide Separator;
      assert forall j :: 0 < j < n ==> whole[j] == above[j - 1];
      assert forall j :: 0 <= j < n - 1 ==> above[j] == whole[j + 1];
    }
  }

  lemma {:induction false} OwnerFromNearest(cs: Catalogs, root: string, from: string, k: nat)
    requires forall d :: d in Upward(from) ==> d in Upward(root)
    requires NearestAt(cs, from, k)
    ensures OwnerFrom(cs, root, from) == Verdict(cs, root, Upward(from)[k])
    decreases k
  {
    if k > 0 {
      assert cs.At(Upward(from)[0]) == [];
      assert Upward(from) == [from] + Upward(Dir(from));
      assert forall j :: 0 <= j < k - 1 ==> Upward(Dir(from))[j] == Upward(from)[j + 1];
      OwnerFromNearest(cs, root, Dir(from), k - 1);
    }
  }

  lemma {:induction false} NearestExists(cs: Catalogs, root: string, from: string)
    requires forall d :: d in Upward(from) ==> d in Upward(root)
    requires OwnerFrom(cs, root, from) != Refused(None, NoConfiguration)
    ensures exists k :: NearestAt(cs, from, k)
    decreases |from|
  {
    if cs.At(from) != [] {
      assert NearestAt(cs, from, 0);
    } else {
      NearestExists(cs, root, Dir(from));
      var k: nat :| NearestAt(cs, Dir(from), k);
      assert Upward(from) == [from] + Upward(Dir(from));
      assert forall j :: 0 < j < k + 1 ==> Upward(from)[j] == Upward(Dir(from))[j - 1];
      assert NearestAt(cs, from, k + 1);
    }
  }

  lemma BetweenIff(cs: Catalogs, root: string, k: nat, c: Config)
    requires 0 < k < |Upward(root)|
    ensures Upward(root)[k] != root && Upward(root)[k] in Upward(Dir(root))
    ensures Separator(cs, c, Upward(root)[k], Dir(root)) == None <==>
            forall j :: 0 < j < k ==> cs.Joins(c, Upward(root)[k], Upward(root)[j])
  {
    var above := Upward(Dir(root));
    UpwardShrinks(root);
    assert Upward(root) == [root] + above;
    hide Separator, Upward, Catalogs.Joins;
    SeparatorIff(cs, c, Dir(root), k - 1);
    assert forall j :: 0 < j < k ==> Upward(root)[j] == above[j - 1];
    assert forall j :: 0 <= j < k - 1 ==> above[j] == Upward(root)[j + 1];
  }

  lemma VerdictIff(cs: Catalogs, root: string, k: nat, c: Config)
    requires k < |Upward(root)| && cs.At(Upward(root)[k]) != []
    ensures Verdict(cs, root, Upward(root)[k]) == Owned(c) <==> OwnsFrom(cs, root, k, c)
  {
    if k > 0 {
      BetweenIff(cs, root, k, cs.At(Upward(root)[k])[0]);
    }
    hide Separator, Upward, Accepts, Relative;
  }

  lemma OwnedFromNearest(cs: Catalogs, root: string, c: Config)
    ensures OwnerOf(cs, root) == Owned(c) <==>
            exists k: nat :: k < |Upward(root)| && NearestAt(cs, root, k) && OwnsFrom(cs, root, k, c)
  {
    hide OwnerFrom, Verdict, OwnsFrom;
    if OwnerOf(cs, root) == Owned(c) {
      NearestExists(cs, root, root);
      var k: nat :| NearestAt(cs, root, k);
      OwnerFromNearest(cs, root, root, k);
      VerdictIff(cs, root, k, c);
    }
    if k: nat :| k < |Upward(root)| && NearestAt(cs, root, k) && OwnsFrom(cs, root, k, c) {
      OwnerFromNearest(cs, root, root, k);
      VerdictIff(cs, root, k, c);
    }
  }

  // ----- ownership, stated on paths -----

  /** The path is somewhere below the directory. */
  ghost predicate LiesIn(path: string, directory: string) {
    exists below :: below != "" && path == JoinRoot(directory, below)
  }

  lemma LiesDeeper(path: string, directory: string, name: string)
    requires LiesIn(directory, path) && name != ""
    ensures LiesIn(JoinRoot(directory, name), path)
  {
    var below :| below != "" && directory == JoinRoot(path, below);
    assert JoinRoot(directory, name) == JoinRoot(path, below + "/" + name) by {
      if path != "" { assert path + "/" + below + "/" + name == path + "/" + (below + "/" + name); }
    }
  }

  lemma LiesLonger(path: string, directory: string)
    requires LiesIn(path, directory)
    ensures |path| > |directory|
  {
  }

  /** What lies above a file is its directory, or lies above that. */
  lemma LiesAbove(path: string, directory: string)
    requires path != "" && CleanPath(path) && LiesIn(path, directory)
    ensures directory == Dir(path) || LiesIn(Dir(path), directory)
  {
    var below :| below != "" && path == JoinRoot(directory, below);
    if '/' !in below {
      assert directory == "." ==> path == "./" + below;
      DirOfJoin(directory, below);
    } else {
      LastSlash(path, directory, below);
    }
  }

  lemma LastSlash(path: string, directory: string, below: string)
    requires CleanPath(path) && path == JoinRoot(directory, below) && '/' in below
    ensures LiesIn(Dir(path), directory)
  {
    var upper, name := AtLastSlash(below);
    if directory == "" {
      CleanEnds(upper, name);
      DirOfJoin(upper, name);
      assert Dir(path) == JoinRoot(directory, upper);
    } else {
      var above := directory + "/" + upper;
      assert directory + "/" + (upper + "/" + name) == above + "/" + name;
      CleanEnds(above, name);
      UpperNonempty(directory, upper);
      DirOfJoin(above, name);
      assert Dir(path) == JoinRoot(directory, upper);
    }
  }

  lemma UpperNonempty(directory: string, upper: string)
    requires CleanPath(directory + "/" + upper)
    ensures upper != ""
  {
    CleanEnds(directory, upper);
  }

  /** The directories gone through are the manifest's own and those it lies in. */
  lemma {:induction false} UpwardIff(root: string, d: string)
    requires CleanPath(root)
    ensures d in Upward(root) <==> d == root || LiesIn(root, d)
    decreases |root|
  {
    if root != "" {
      var name := DirSplits(root);
      UpwardIff(Dir(root), d);
      hide CleanPath;
      if d == Dir(root) {
        assert root == JoinRoot(d, name);
      } else if LiesIn(Dir(root), d) {
        LiesDeeper(d, Dir(root), name);
      }
      if LiesIn(root, d) { LiesAbove(root, d); }
    }
  }

  lemma {:induction false} UpwardTail(root: string, j: nat)
    requires CleanPath(root) && j < |Upward(root)|
    ensures Upward(root)[j..] == Upward(Upward(root)[j]) && CleanPath(Upward(root)[j])
    decreases |root|
  {
    if j > 0 {
      var name := DirSplits(root);
      UpwardTail(Dir(root), j - 1);
    } else {
      assert Upward(root)[0..] == Upward(root);
    }
  }

  /** Of the directories gone through, those before the k-th lie in it. */
  lemma UpwardBefore(root: string, k: nat, d: string)
    requires CleanPath(root) && k < |Upward(root)|
    ensures (exists j :: 0 <= j < k && Upward(root)[j] == d) <==>
            (d == root || LiesIn(root, d)) && LiesIn(d, Upward(root)[k])
  {
    var dirs := Upward(root);
    UpwardShrinks(root);
    UpwardIff(root, d);
    if j :| 0 <= j < k && dirs[j] == d {
      UpwardTail(root, j);
      assert dirs[j..][k - j] == dirs[k];
      UpwardIff(d, dirs[k]);
    }
    if d in dirs && LiesIn(d, dirs[k]) {
      LiesLonger(d, dirs[k]);
      var j :| 0 <= j < |dirs| && dirs[j] == d;
    }
  }

  /** No manager declaration of the directory's manifest speaks against the configuration. */
  predicate Suits(cs: Catalogs, d: string, c: Config) {
    d in cs.manifests ==> !cs.manifests[d].managerInvalid && cs.manifests[d].manager in {NoManager, c.manager}
  }

  /** The configuration's workspace takes the directory in. */
  ghost predicate Accepted(cs: Catalogs, owner: string, c: Config, d: string) {
    TakesIn(cs.m, Workspace(owner, c.patterns, c.manager), d)
  }

  /** Everything that must hold for the configuration in `owner` to own the manifest in `root`. */
  ghost predicate Owns(cs: Catalogs, root: string, owner: string, c: Config) {
    && (owner == root || LiesIn(root, owner))
    && owner in cs.configs && cs.configs[owner] == [c] && !c.broken
    && (forall d :: d in cs.configs && (d == root || LiesIn(root, d)) && LiesIn(d, owner) ==> cs.configs[d] == [])
    && Suits(cs, root, c) && Suits(cs, owner, c)
    && (owner != root ==>
          && (root in cs.manifests ==> cs.manifests[root].workspaces == []) && Accepted(cs, owner, c, root)
          && forall d :: d in cs.manifests && LiesIn(root, d) && LiesIn(d, owner) ==>
               cs.manifests[d] == JsFacts(NoManager, false, []) && Accepted(cs, owner, c, d))
  }

  lemma MemberIff(cs: Catalogs, c: Config, owner: string, d: string)
    requires CleanPath(d) && LiesIn(d, owner)
    ensures cs.Member(c, owner, d) <==> Accepted(cs, owner, c, d)
  {
    hide Accepts;
    var below :| below != "" && d == JoinRoot(owner, below);
    JoinedIsBelow(owner, below);
    ClaimsIff(cs.m, Workspace(owner, c.patterns, c.manager), d);
  }

  lemma AgreesIff(cs: Catalogs, d: string, c: Config)
    ensures cs.Agrees(cs.Manifest(d), c) <==> Suits(cs, d, c)
  {
  }

  lemma JoinsIff(cs: Catalogs, root: string, k: nat, c: Config, d: string)
    requires CleanPath(root) && k < |Upward(root)| && LiesIn(root, d) && LiesIn(d, Upward(root)[k])
    ensures cs.Joins(c, Upward(root)[k], d) <==>
            (d in cs.manifests ==> cs.manifests[d] == JsFacts(NoManager, false, []) && Accepted(cs, Upward(root)[k], c, d))
  {
    UpwardIff(root, d);
    var j :| 0 <= j < |Upward(root)| && Upward(root)[j] == d;
    UpwardTail(root, j);
    MemberIff(cs, c, Upward(root)[k], d);
  }

  lemma OwnsIff(cs: Catalogs, root: string, k: nat, c: Config)
    requires CleanPath(root) && k < |Upward(root)|
    ensures NearestAt(cs, root, k) && OwnsFrom(cs, root, k, c) <==> Owns(cs, root, Upward(root)[k], c)
  {
    hide Upward, LiesIn, CleanPath, Accepted, Suits;
    var dirs := Upward(root);
    var owner := dirs[k];
    UpwardIff(root, owner);
    UpwardShrinks(root);
    StartsAtRoot(root);
    AgreesIff(cs, root, c);
    AgreesIff(cs, owner, c);
    assert owner == root <==> k == 0;
    if k > 0 {
      assert LiesIn(root, owner);
      MemberIff(cs, c, owner, root);
      forall d | LiesIn(root, d) && LiesIn(d, owner)
        ensures cs.Joins(c, owner, d) <==>
                (d in cs.manifests ==> cs.manifests[d] == JsFacts(NoManager, false, []) && Accepted(cs, owner, c, d))
      {
        JoinsIff(cs, root, k, c, d);
      }
      BetweenAll(cs, root, k, c);
    }
    NoneBefore(cs, root, k);
  }

  lemma StartsAtRoot(root: string)
    ensures Upward(root) != [] && Upward(root)[0] == root
  {
  }

  lemma BetweenAll(cs: Catalogs, root: string, k: nat, c: Config)
    requires CleanPath(root) && 0 < k < |Upward(root)|
    ensures (forall j :: 0 < j < k ==> cs.Joins(c, Upward(root)[k], Upward(root)[j])) <==>
            forall d :: LiesIn(root, d) && LiesIn(d, Upward(root)[k]) ==> cs.Joins(c, Upward(root)[k], d)
  {
    hide LiesIn, CleanPath, Relative, Accepts;
    var dirs := Upward(root);
    UpwardShrinks(root);
    StartsAtRoot(root);
    hide Upward;
    forall d ensures (exists j :: 0 < j < k && dirs[j] == d) <==> LiesIn(root, d) && LiesIn(d, dirs[k]) {
      UpwardBefore(root, k, d);
      NotInItself(root);
      if d == root { assert dirs[0] == d; }
    }
  }

  lemma NotInItself(path: string)
    ensures !LiesIn(path, path)
  {
    if LiesIn(path, path) { LiesLonger(path, path); }
  }

  lemma NoneBefore(cs: Catalogs, root: string, k: nat)
    requires CleanPath(root) && k < |Upward(root)|
    ensures (forall j :: 0 <= j < k ==> cs.At(Upward(root)[j]) == []) <==>
            forall d :: d in cs.configs && (d == root || LiesIn(root, d)) && LiesIn(d, Upward(root)[k]) ==> cs.configs[d] == []
  {
    hide LiesIn, CleanPath, Upward;
    forall d ensures (exists j :: 0 <= j < k && Upward(root)[j] == d) <==>
                     (d == root || LiesIn(root, d)) && LiesIn(d, Upward(root)[k])
    {
      UpwardBefore(root, k, d);
    }
  }

  /** A configuration owns a manifest exactly when it is alone at the nearest configured directory of the manifest
      and nothing there, at the manifest or in between speaks against it; farther configurations never count. */
  lemma OwnedIff(cs: Catalogs, root: string, c: Config)
    requires CleanPath(root)
    ensures OwnerOf(cs, root) == Owned(c) <==> exists owner :: Owns(cs, root, owner, c)
  {
    hide OwnerOf, NearestAt, OwnsFrom, Owns, CleanPath;
    OwnedFromNearest(cs, root, c);
    if k: nat :| k < |Upward(root)| && NearestAt(cs, root, k) && OwnsFrom(cs, root, k, c) {
      OwnsIff(cs, root, k, c);
    }
    if owner :| Owns(cs, root, owner, c) {
      OwnerListed(cs, root, owner, c);
      var k :| 0 <= k < |Upward(root)| && Upward(root)[k] == owner;
      OwnsIff(cs, root, k, c);
    }
  }

  lemma OwnerListed(cs: Catalogs, root: string, owner: string, c: Config)
    requires CleanPath(root) && Owns(cs, root, owner, c)
    ensures owner in Upward(root)
  {
    UpwardIff(root, owner);
  }

  /** Configurations above the nearest one are never consulted. */
  lemma FartherIgnored(cs: Catalogs, other: Catalogs, root: string, k: nat)
    requires NearestAt(cs, root, k) && other.m == cs.m && other.manifests == cs.manifests
    requires forall j :: 0 <= j <= k ==> other.At(Upward(root)[j]) == cs.At(Upward(root)[j])
    ensures OwnerOf(other, root) == OwnerOf(cs, root)
  {
    assert NearestAt(other, root, k) by {
      forall j | 0 <= j < k ensures other.At(Upward(root)[j]) == [] {
        assert cs.At(Upward(root)[j]) == [];
      }
    }
    OwnerFromNearest(cs, root, root, k);
    OwnerFromNearest(other, root, root, k);
    SameVerdict(cs, other, root, Upward(root)[k]);
  }

  lemma SameVerdict(cs: Catalogs, other: Catalogs, root: string, owner: string)
    requires owner in Upward(root) && cs.At(owner) != [] && other.At(owner) == cs.At(owner)
    requires other.m == cs.m && other.manifests == cs.manifests
    ensures Verdict(other, root, owner) == Verdict(cs, root, owner)
  {
    hide Accepts, Relative, Dir;
    if owner != root {
      SameSeparator(cs, other, cs.At(owner)[0], owner, Dir(root));
      hide Separator;
    }
  }

  lemma {:induction false} SameSeparator(cs: Catalogs, other: Catalogs, c: Config, owner: string, between: string)
    requires owner in Upward(between) && other.m == cs.m && other.manifests == cs.manifests
    ensures Separator(other, c, owner, between) == Separator(cs, c, owner, between)
    decreases |between|
  {
    if between != owner {
      SameSeparator(cs, other, c, owner, Dir(between));
    }
  }
}
