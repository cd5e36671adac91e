/** Strings, their order, and the few library calls every other module needs.

  A Go string is modelled as a sequence of characters. In the byte-wise scanners a character
  stands for one byte; nothing depends on how large its code is.
 */
module Text {
  datatype Option<+T> = None | Some(value: T)

  predicate HasPrefix(s: string, prefix: string) { prefix <= s }

  predicate HasSuffix(s: string, suffix: string) {
    |suffix| <= |s| && s[|s| - |suffix|..] == suffix
  }

  function TrimPrefix(s: string, prefix: string): string {
    if HasPrefix(s, prefix) then s[|prefix|..] else s
  }

  /** `strings.Split(s, "/")`: always at least one segment. */
  function Segments(s: string): (r: seq<string>)
    ensures |r| > 0
  {
    if s == [] then [""]
    else
      var rest := Segments(s[1..]);
      if s[0] == '/' then [""] + rest
      else [[s[0]] + rest[0]] + rest[1..]
  }

  /** The segments with slashes between them. */
  function Slashed(segments: seq<string>): string {
    if segments == [] then "" else if |segments| == 1 then segments[0] else segments[0] + ("/" + Slashed(segments[1..]))
  }

  predicate SlashFree(segments: seq<string>) { forall s :: s in segments ==> '/' !in s }

  lemma {:induction false} SegmentsJoin(s: string)
    ensures Slashed(Segments(s)) == s && SlashFree(Segments(s))
  {
    if s != [] {
      var rest := Segments(s[1..]);
      SegmentsJoin(s[1..]);
      assert s == [s[0]] + s[1..];
      if s[0] == '/' {
        assert ([""] + rest)[1..] == rest;
        assert "" + ("/" + Slashed(rest)) == "/" + Slashed(rest);
      } else {
        var longer := [[s[0]] + rest[0]] + rest[1..];
        assert longer[1..] == rest[1..];
        if |rest| > 1 { Assoc([s[0]], rest[0], "/" + Slashed(rest[1..])); }
        assert forall x :: x in longer ==> x == [s[0]] + rest[0] || x in rest;
      }
    }
  }

  lemma {:induction false} SegmentsOfSlashed(segments: seq<string>)
    requires segments != [] && SlashFree(segments)
    ensures Segments(Slashed(segments)) == segments
    decreases |segments|, if segments == [] then 0 else |segments[0]|
  {
    var s := segments[0];
    if s == "" {
      if |segments| > 1 {
        var tail := Slashed(segments[1..]);
        SegmentsOfSlashed(segments[1..]);
        assert Slashed(segments) == "/" + tail;
        hide Slashed, SlashFree;
        assert ("/" + tail)[1..] == tail;
        assert segments == [""] + segments[1..];
      } else {
        assert segments == [""];
      }
    } else {
      var shorter := [s[1..]] + segments[1..];
      FirstShorter(segments);
      SegmentsOfSlashed(shorter);
      hide Slashed, SlashFree;
      assert ([s[0]] + Slashed(shorter))[1..] == Slashed(shorter);
      assert s == [s[0]] + shorter[0];
      assert segments == [s] + shorter[1..];
    }
  }

  lemma FirstShorter(segments: seq<string>)
    requires segments != [] && SlashFree(segments) && segments[0] != ""
    ensures var s := segments[0];
            var shorter := [s[1..]] + segments[1..];
            SlashFree(shorter) && s[0] != '/' && Slashed(segments) == [s[0]] + Slashed(shorter)
  {
    var s := segments[0];
    var shorter := [s[1..]] + segments[1..];
    assert s in segments && s[0] in s && s == [s[0]] + s[1..];
    assert forall c :: c in s[1..] ==> c in s;
    assert forall x :: x in shorter ==> x == s[1..] || x in segments;
    assert shorter[1..] == segments[1..];
    if |segments| > 1 { Assoc([s[0]], s[1..], "/" + Slashed(segments[1..])); }
  }

  /** Splitting at slashes undoes joining with slashes, both ways. */
  lemma SegmentsIff(s: string, segments: seq<string>)
    ensures Segments(s) == segments <==> segments != [] && SlashFree(segments) && Slashed(segments) == s
  {
    SegmentsJoin(s);
    if segments != [] && SlashFree(segments) { SegmentsOfSlashed(segments); }
  }

  /** `path.Dir` on a clean relative path, with "." rewritten to the empty root. */
  function Dir(path: string): (root: string)
    ensures |root| < |path| || path == ""
    ensures root != "."
  {
    if path == "" then ""
    else if path[|path| - 1] == '/' then (if path[..|path| - 1] == "." then "" else path[..|path| - 1])
    else Dir(path[..|path| - 1])
  }

  /** `path.Join(root, name)` for a clean relative root and a plain file name. */
  function JoinRoot(root: string, name: string): string {
    if root == "" then name else root + "/" + name
  }

  /** Relative, without empty segments and without a leading "." segment. */
  predicate CleanPath(path: string) {
    path == "" ||
    (path[0] != '/' && path[|path| - 1] != '/' && path != "." && !HasPrefix(path, "./")
     && forall i :: 0 < i < |path| && path[i] == '/' ==> path[i - 1] != '/')
  }

  lemma {:induction false} DirAt(path: string, k: nat)
    requires k < |path| && path[k] == '/' && forall i :: k < i < |path| ==> path[i] != '/'
    ensures Dir(path) == if path[..k] == "." then "" else path[..k]
    decreases |path|
  {
    if k < |path| - 1 {
      var shorter := path[..|path| - 1];
      DirAt(shorter, k);
      assert shorter[..k] == path[..k];
    }
  }

  lemma {:induction false} DirNowhere(path: string)
    requires '/' !in path
    ensures Dir(path) == ""
  {
    if path != "" {
      DirNowhere(path[..|path| - 1]);
    }
  }

  /** The directory of a file is the root it was joined to. */
  lemma DirOfJoin(root: string, name: string)
    requires root != "." && name != "" && '/' !in name
    ensures Dir(JoinRoot(root, name)) == root
  {
    hide Dir;
    if root == "" {
      DirNowhere(name);
    } else {
      var path := root + "/" + name;
      assert path[..|root|] == root;
      forall i | |root| < i < |path| ensures path[i] != '/' {
        assert path[i] == name[i - |root| - 1];
      }
      DirAt(path, |root|);
    }
  }

  lemma {:induction false} AtLastSlash(s: string) returns (upper: string, name: string)
    requires '/' in s
    ensures s == upper + "/" + name && '/' !in name
  {
    var init := s[..|s| - 1];
    assert s == init + [s[|s| - 1]];
    if s[|s| - 1] == '/' {
      upper, name := init, "";
      assert init + "/" + "" == init + "/";
    } else {
      var shorter;
      upper, shorter := AtLastSlash(init);
      name := shorter + [s[|s| - 1]];
      Assoc(upper + "/", shorter, [s[|s| - 1]]);
    }
  }

  lemma CleanPrefix(path: string, k: nat)
    requires CleanPath(path) && 0 < k < |path| && path[k] == '/'
    ensures path[..k] != "" && CleanPath(path[..k]) && path[..k] != "."
  {
    assert path[k - 1] != '/';
    assert k == 1 ==> path[..2] == path[..k] + "/";
  }

  lemma CleanEnds(upper: string, name: string)
    requires CleanPath(upper + "/" + name)
    ensures name != "" && upper != "" && upper != "." && CleanPath(upper)
  {
    var path := upper + "/" + name;
    assert path[|upper|] == '/' && path[..|upper|] == upper;
    if |upper| > 0 { CleanPrefix(path, |upper|); }
  }

  /** And every clean path is a file name joined to its directory. */
  lemma DirSplits(path: string) returns (name: string)
    requires path != "" && CleanPath(path)
    ensures name != "" && '/' !in name && path == JoinRoot(Dir(path), name) && CleanPath(Dir(path))
  {
    hide Dir;
    if '/' in path {
      var upper;
      upper, name := AtLastSlash(path);
      CleanEnds(upper, name);
      hide CleanPath;
      DirOfJoin(upper, name);
    } else {
      name := path;
      DirNowhere(path);
    }
  }

  lemma Assoc<T>(a: seq<T>, b: seq<T>, c: seq<T>)
    ensures (a + b) + c == a + (b + c)
  {
  }

  lemma SplitPrefix(s: string, prefix: string)
    requires prefix <= s
    ensures s == prefix + s[|prefix|..]
  {
  }

  /** What is left behind a comment that runs to the end of the line: the line feed and the text after it. */
  function AfterLine(s: string): (r: string)
    ensures |r| <= |s| && (s != "" && s[0] != '\n' ==> |r| < |s|)
  {
    if s == "" || s[0] == '\n' then s else AfterLine(s[1..])
  }

  // ----- what a parser made of the start of a text, and the text after it -----

  function Prefixed<T>(done: seq<T>, r: Option<(seq<T>, string)>): Option<(seq<T>, string)> {
    if r.None? then None else Some((done + r.value.0, r.value.1))
  }

  lemma PrefixedStep<T>(done: seq<T>, x: T, r: Option<(seq<T>, string)>)
    ensures Prefixed(done, Prefixed([x], r)) == Prefixed(done + [x], r)
    ensures Prefixed([], r) == r
  {
    if r.Some? {
      assert done + ([x] + r.value.0) == (done + [x]) + r.value.0;
      assert [] + r.value.0 == r.value.0;
    }
  }

  lemma PrefixedEnd<T>(done: seq<T>, rest: string)
    ensures Prefixed(done, Some(([], rest))) == Some((done, rest))
  {
    assert done + [] == done;
  }

  // ----- byte-wise order of strings -----

  /** `strings.Compare(a, b) < 0`. */
  predicate Before(a: string, b: string) {
    b != [] && (a == [] || a[0] < b[0] || (a[0] == b[0] && Before(a[1..], b[1..])))
  }

  lemma {:induction false} BeforeTrichotomy(a: string, b: string)
    ensures a == b || Before(a, b) || Before(b, a)
    ensures !(Before(a, b) && Before(b, a)) && (a == b ==> !Before(a, b))
  {
    if a != [] && b != [] && a[0] == b[0] {
      BeforeTrichotomy(a[1..], b[1..]);
      assert a == [a[0]] + a[1..] && b == [b[0]] + b[1..];
    }
  }

  lemma {:induction false} BeforeTransitive(a: string, b: string, c: string)
    requires Before(a, b) && Before(b, c)
    ensures Before(a, c)
  {
    if a != [] && a[0] == b[0] && b[0] == c[0] {
      BeforeTransitive(a[1..], b[1..], c[1..]);
    }
  }

  // ----- sorted keys of a map -----

  ghost predicate Increasing(keys: seq<string>) {
    forall i, j :: 0 <= i < j < |keys| ==> Before(keys[i], keys[j])
  }

  function Insert(key: string, keys: seq<string>): (r: seq<string>)
    ensures |r| == |keys| + 1
    ensures forall x :: x in r <==> x == key || x in keys
  {
    if keys == [] then [key]
    else if Before(key, keys[0]) then [key] + keys
    else [keys[0]] + Insert(key, keys[1..])
  }

  lemma {:induction false} InsertIncreasing(key: string, keys: seq<string>)
    requires Increasing(keys) && key !in keys
    ensures Increasing(Insert(key, keys))
  {
    if keys != [] {
      BeforeTrichotomy(key, keys[0]);
      if Before(key, keys[0]) {
        forall j | 0 < j < |keys| ensures Before(key, keys[j]) {
          BeforeTransitive(key, keys[0], keys[j]);
        }
      } else {
        var rest := Insert(key, keys[1..]);
        InsertIncreasing(key, keys[1..]);
        forall x | x in rest ensures Before(keys[0], x) {
          assert x == key || x in keys[1..];
        }
      }
    }
  }

  lemma {:induction false} IncreasingUnique(a: seq<string>, b: seq<string>)
    requires Increasing(a) && Increasing(b)
    requires forall x :: x in a <==> x in b
    ensures a == b
  {
    assert a != [] ==> exists x :: x in a by { if a != [] { assert a[0] in a; } }
    assert b != [] ==> exists x :: x in b by { if b != [] { assert b[0] in b; } }
    if a != [] && b != [] {
      assert a[0] in b && b[0] in a;
      BeforeTrichotomy(a[0], b[0]);
      assert a[0] == b[0];
      forall x ensures x in a[1..] <==> x in b[1..] {
        BeforeTrichotomy(a[0], x);
        if x in a[1..] {
          var i :| 0 <= i < |a[1..]| && a[1..][i] == x;
          assert Before(a[0], a[i + 1]) && a[i + 1] in b;
        }
        if x in b[1..] {
          var i :| 0 <= i < |b[1..]| && b[1..][i] == x;
          assert Before(b[0], b[i + 1]) && b[i + 1] in a;
        }
      }
      IncreasingUnique(a[1..], b[1..]);
      assert a == [a[0]] + a[1..] && b == [b[0]] + b[1..];
    }
  }

  /** The one increasing list of a set's elements. */
  ghost function Sorted(keys: set<string>): (r: seq<string>)
    ensures Increasing(r)
    ensures forall x :: x in r <==> x in keys
  {
    if keys == {} then []
    else
      var x :| x in keys;
      var rest := Sorted(keys - {x});
      InsertIncreasing(x, rest);
      Insert(x, rest)
  }

  /** Collects map keys in an arbitrary order and sorts them, as `slices.Sort(keys)` does. */
  method SortedKeys(keys: set<string>) returns (r: seq<string>)
    ensures r == Sorted(keys)
  {
    r := [];
    var left := keys;
    while left != {}
      invariant left <= keys && Increasing(r)
      invariant forall x :: x in r <==> x in keys - left
    {
      var x :| x in left;
      InsertIncreasing(x, r);
      r := Insert(x, r);
      left := left - {x};
    }
    IncreasingUnique(r, Sorted(keys));
  }
}
