/** The append-in-a-loop pattern as a function of the list walked so far. */
module Lists {
  import opened Text

  function Last<T>(xs: seq<T>): T requires xs != [] { xs[|xs| - 1] }

  function Init<T>(xs: seq<T>): seq<T> requires xs != [] { xs[..|xs| - 1] }

  /** What a loop over `xs` appends when each element contributes `f(x)`. */
  function FlatMap<S, T>(f: S -> seq<T>, xs: seq<S>): seq<T> {
    if xs == [] then [] else FlatMap(f, Init(xs)) + f(Last(xs))
  }

  lemma FlatMapNil<S, T>(f: S -> seq<T>)
    ensures FlatMap(f, []) == []
  {
  }

  lemma FlatMapLast<S, T>(f: S -> seq<T>, xs: seq<S>)
    requires xs != []
    ensures FlatMap(f, xs) == FlatMap(f, Init(xs)) + f(Last(xs))
  {
  }

  lemma FlatMapStep<S, T>(f: S -> seq<T>, xs: seq<S>, n: nat)
    requires n < |xs|
    ensures FlatMap(f, xs[..n + 1]) == FlatMap(f, xs[..n]) + f(xs[n])
  {
    assert Init(xs[..n + 1]) == xs[..n];
  }

  lemma {:induction false} FlatMapAppend<S, T>(f: S -> seq<T>, xs: seq<S>, ys: seq<S>)
    ensures FlatMap(f, xs + ys) == FlatMap(f, xs) + FlatMap(f, ys)
  {
    if ys == [] {
      assert xs + ys == xs;
    } else {
      FlatMapAppend(f, xs, Init(ys));
      assert Init(xs + ys) == xs + Init(ys);
    }
  }

  lemma {:induction false} FlatMapCongruence<S, T>(f: S -> seq<T>, g: S -> seq<T>, xs: seq<S>)
    requires forall x :: x in xs ==> f(x) == g(x)
    ensures FlatMap(f, xs) == FlatMap(g, xs)
  {
    if xs != [] {
      FlatMapCongruence(f, g, Init(xs));
    }
  }

  lemma {:induction false} FlatMapMember<S, T>(f: S -> seq<T>, xs: seq<S>, y: T)
    ensures y in FlatMap(f, xs) <==> exists x :: x in xs && y in f(x)
  {
    if xs != [] {
      FlatMapMember(f, Init(xs), y);
      assert forall x :: x in xs <==> x in Init(xs) || x == Last(xs);
    }
  }

  ghost function Compose<R, S, T>(f: R -> seq<S>, g: S -> seq<T>): R -> seq<T> {
    x => FlatMap(g, f(x))
  }

  lemma {:induction false} FlatMapCompose<R, S, T>(f: R -> seq<S>, g: S -> seq<T>, xs: seq<R>)
    ensures FlatMap(g, FlatMap(f, xs)) == FlatMap(Compose(f, g), xs)
  {
    if xs != [] {
      FlatMapCompose(f, g, Init(xs));
      FlatMapAppend(g, FlatMap(f, Init(xs)), f(Last(xs)));
    }
  }

  function Only<T>(p: T -> bool): T -> seq<T> { x => if p(x) then [x] else [] }

  function Filter<T>(p: T -> bool, xs: seq<T>): seq<T> { FlatMap(Only(p), xs) }

  lemma FilterLast<T>(p: T -> bool, xs: seq<T>)
    requires xs != []
    ensures Filter(p, xs) == Filter(p, Init(xs)) + if p(Last(xs)) then [Last(xs)] else []
  {
  }

  /** `kept` is what is left of `all`, in order, when exactly the elements with `p` stay. */
  ghost predicate Keeps<T(!new)>(all: seq<T>, kept: seq<T>, p: T -> bool) {
    exists places: seq<nat> :: KeptAt(all, kept, p, places)
  }

  /** `places` are the positions of the elements that stay. */
  ghost predicate KeptAt<T(!new)>(all: seq<T>, kept: seq<T>, p: T -> bool, places: seq<nat>) {
    && |places| == |kept| && (forall j, k :: 0 <= j < k < |places| ==> places[j] < places[k])
    && (forall k :: 0 <= k < |places| ==> places[k] < |all| && kept[k] == all[places[k]])
    && (forall i :: 0 <= i < |all| ==> (p(all[i]) <==> i in places))
  }

  lemma {:induction false} FilterKeeps<T(!new)>(q: T -> bool, all: seq<T>, p: T -> bool) returns (places: seq<nat>)
    requires forall x :: p(x) <==> q(x)
    ensures KeptAt(all, Filter(q, all), p, places)
  {
    if all == [] {
      FilterNil(q);
      places := [];
    } else {
      FilterLast(q, all);
      hide Filter, KeptAt;
      var before := FilterKeeps(q, Init(all), p);
      KeptOneMore(all, Filter(q, Init(all)), p, before);
      places := if p(Last(all)) then before + [|all| - 1] else before;
      assert Filter(q, Init(all)) + [] == Filter(q, Init(all));
    }
  }

  lemma KeptOneMore<T(!new)>(all: seq<T>, kept: seq<T>, p: T -> bool, places: seq<nat>)
    requires all != [] && KeptAt(Init(all), kept, p, places)
    ensures if p(Last(all)) then KeptAt(all, kept + [Last(all)], p, places + [|all| - 1]) else KeptAt(all, kept, p, places)
  {
    var n := |all| - 1;
    assert forall i :: 0 <= i < n ==> all[i] == Init(all)[i];
    assert forall k :: 0 <= k < |places| ==> places[k] < n;
    if p(Last(all)) {
      var more := places + [n];
      assert forall i :: 0 <= i < n ==> (i in more <==> i in places);
      assert more[|places|] == n;
    }
  }

  lemma FilterNil<T>(p: T -> bool)
    ensures Filter(p, []) == []
  {
  }

  lemma {:induction false} FilterPartitions<T(!new)>(p: T -> bool, q: T -> bool, xs: seq<T>)
    requires forall x :: p(x) != q(x)
    ensures multiset(Filter(p, xs)) + multiset(Filter(q, xs)) == multiset(xs)
  {
    hide Filter, FlatMap;
    if xs == [] {
      FilterNil(p);
      FilterNil(q);
    } else {
      var last := Last(xs);
      FilterPartitions(p, q, Init(xs));
      FilterLast(p, xs);
      FilterLast(q, xs);
      assert xs == Init(xs) + [last];
      assert multiset(Init(xs) + [last]) == multiset(Init(xs)) + multiset{last};
      if p(last) {
        assert multiset(Filter(p, Init(xs)) + [last]) == multiset(Filter(p, Init(xs))) + multiset{last};
      } else {
        assert multiset(Filter(q, Init(xs)) + [last]) == multiset(Filter(q, Init(xs))) + multiset{last};
      }
    }
  }

  /** Elements that contribute nothing may be dropped beforehand. */
  lemma {:induction false} FlatMapOfFilter<S, T>(f: S -> seq<T>, p: S -> bool, xs: seq<S>)
    requires forall x :: x in xs && !p(x) ==> f(x) == []
    ensures FlatMap(f, Filter(p, xs)) == FlatMap(f, xs)
  {
    if xs != [] {
      FlatMapOfFilter(f, p, Init(xs));
      FlatMapAppend(f, Filter(p, Init(xs)), Only(p)(Last(xs)));
      assert FlatMap(f, [Last(xs)]) == FlatMap(f, []) + f(Last(xs));
    }
  }

  // ----- sorting by a string key -----

  function InsertBy<T>(key: T -> string, x: T, xs: seq<T>): seq<T> {
    if xs == [] || !Before(key(xs[0]), key(x)) then [x] + xs else [xs[0]] + InsertBy(key, x, xs[1..])
  }

  /** `slices.SortFunc` comparing by a string key. */
  function SortBy<T>(key: T -> string, xs: seq<T>): seq<T> {
    if xs == [] then [] else InsertBy(key, xs[0], SortBy(key, xs[1..]))
  }

  lemma SortByOfOne<T>(key: T -> string, x: T)
    ensures SortBy(key, [x]) == [x]
  {
    assert [x][1..] == [] && [x] + [] == [x];
  }

  lemma SortByOfTwo<T>(key: T -> string, x: T, y: T)
    ensures SortBy(key, [x, y]) == [x, y] || SortBy(key, [x, y]) == [y, x]
  {
    SortByOfOne(key, y);
    assert [x, y][1..] == [y] && [y][1..] == [];
    assert InsertBy(key, x, []) == [x];
  }

  lemma {:induction false} InsertByKeeps<T>(key: T -> string, x: T, xs: seq<T>)
    ensures multiset(InsertBy(key, x, xs)) == multiset(xs) + multiset{x}
  {
    if xs != [] && Before(key(xs[0]), key(x)) {
      InsertByKeeps(key, x, xs[1..]);
      assert xs == [xs[0]] + xs[1..];
    }
  }

  lemma {:induction false} SortByKeeps<T>(key: T -> string, xs: seq<T>)
    ensures multiset(SortBy(key, xs)) == multiset(xs)
  {
    if xs != [] {
      SortByKeeps(key, xs[1..]);
      InsertByKeeps(key, xs[0], SortBy(key, xs[1..]));
      assert xs == [xs[0]] + xs[1..];
    }
  }

  lemma SortByMembers<T>(key: T -> string, xs: seq<T>)
    ensures forall x :: x in SortBy(key, xs) <==> x in xs
  {
    SortByKeeps(key, xs);
    assert forall x :: x in SortBy(key, xs) <==> x in multiset(SortBy(key, xs));
  }

  lemma FlatMapCons<S, T>(f: S -> seq<T>, x: S, xs: seq<S>)
    ensures FlatMap(f, [x] + xs) == f(x) + FlatMap(f, xs)
  {
    FlatMapAppend(f, [x], xs);
    assert Init([x]) == [];
  }

  lemma {:induction false} InsertByContributes<S, T>(key: S -> string, f: S -> seq<T>, x: S, xs: seq<S>)
    ensures multiset(FlatMap(f, InsertBy(key, x, xs))) == multiset(f(x)) + multiset(FlatMap(f, xs))
  {
    hide FlatMap;
    if xs == [] || !Before(key(xs[0]), key(x)) {
      FlatMapCons(f, x, xs);
    } else {
      InsertByContributes(key, f, x, xs[1..]);
      FlatMapCons(f, xs[0], InsertBy(key, x, xs[1..]));
      FlatMapCons(f, xs[0], xs[1..]);
      assert [xs[0]] + xs[1..] == xs;
    }
  }

  /** Sorting does not change what a list contributes, only the order. */
  lemma {:induction false} SortByContributes<S, T>(key: S -> string, f: S -> seq<T>, xs: seq<S>)
    ensures multiset(FlatMap(f, SortBy(key, xs))) == multiset(FlatMap(f, xs))
  {
    hide FlatMap;
    if xs != [] {
      SortByContributes(key, f, xs[1..]);
      InsertByContributes(key, f, xs[0], SortBy(key, xs[1..]));
      FlatMapCons(f, xs[0], xs[1..]);
      assert [xs[0]] + xs[1..] == xs;
    }
  }

  ghost predicate Ascending<T>(key: T -> string, xs: seq<T>) {
    forall i, j :: 0 <= i < j < |xs| ==> !Before(key(xs[j]), key(xs[i]))
  }

  lemma {:induction false} SortByAscends<T>(key: T -> string, xs: seq<T>)
    ensures Ascending(key, SortBy(key, xs))
  {
    if xs != [] {
      SortByAscends(key, xs[1..]);
      InsertByAscends(key, xs[0], SortBy(key, xs[1..]));
    }
  }

  lemma {:induction false} InsertByAscends<T>(key: T -> string, x: T, xs: seq<T>)
    requires Ascending(key, xs)
    ensures Ascending(key, InsertBy(key, x, xs))
  {
    if xs != [] {
      BeforeTrichotomy(key(x), key(xs[0]));
      if Before(key(xs[0]), key(x)) {
        InsertByAscends(key, x, xs[1..]);
        InsertByKeeps(key, x, xs[1..]);
        var rest := InsertBy(key, x, xs[1..]);
        forall y | y in rest ensures !Before(key(y), key(xs[0])) {
          assert y in multiset(rest);
          assert y == x || y in xs[1..];
        }
      } else {
        forall j | 0 <= j < |xs| ensures !Before(key(xs[j]), key(x)) {
          if Before(key(xs[j]), key(x)) {
            BeforeTrichotomy(key(xs[0]), key(xs[j]));
            if Before(key(xs[0]), key(xs[j])) { BeforeTransitive(key(xs[0]), key(xs[j]), key(x)); }
          }
        }
      }
    }
  }
}
