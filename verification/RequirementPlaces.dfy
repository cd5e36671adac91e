/** Where every collected requirement and message comes from: one entry per place, in the order of the text. */
module RequirementPlaces {
  import opened Text
  import opened Requirements

  /** What one line may add. */
  datatype Entry = Dependency(raw: string) | Report(message: Message)

  /** A place is a line number in the root file, then one in each file included on the way. */
  type Place = seq<nat>

  /** `place` leads through includes of readable files that are not active to a line that adds `entry`. */
  ghost predicate Found(t: Tree, path: string, lines: seq<Line>, active: set<string>, place: Place, entry: Entry)
    decreases |place|
  {
    && place != [] && place[0] < |lines|
    && if |place| == 1 then Adds(t, path, lines[place[0]], active, entry)
       else
         var line := lines[place[0]];
         line.Include?
         && var next := t.resolve(path, line.target);
            next !in active && next in t.files && Found(t, next, t.files[next], active + {next}, place[1..], entry)
  }

  /** A declaration adds itself; an include that names an active or an unreadable file adds a message. */
  ghost predicate Adds(t: Tree, path: string, line: Line, active: set<string>, entry: Entry) {
    match entry
    case Dependency(raw) => line == Declared(raw)
    case Report(Cycle(found, target)) => line == Include(target) && t.resolve(path, target) == found && found in active
    case Report(Unreadable(target)) => line == Include(target) && t.resolve(path, target) !in active + t.files.Keys
  }

  /** The first line number that differs is smaller. */
  ghost predicate Earlier(p: Place, q: Place) {
    exists i: nat :: i < |p| && i < |q| && p[i] < q[i] && SameUpTo(p, q, i)
  }

  predicate SameUpTo(p: Place, q: Place, i: nat)
    requires i <= |p| && i <= |q|
  {
    forall k :: 0 <= k < i ==> p[k] == q[k]
  }

  ghost predicate InOrder(places: seq<Place>) {
    forall i, j :: 0 <= i < j < |places| ==> Earlier(places[i], places[j])
  }

  /** The entries of one kind, in the order of collection. */
  function Entries(r: Collected, reports: bool): seq<Entry> {
    if reports then seq(|r.messages|, i requires 0 <= i < |r.messages| => Report(r.messages[i]))
    else seq(|r.dependencies|, i requires 0 <= i < |r.dependencies| => Dependency(r.dependencies[i]))
  }

  /** `places` are in order and are exactly the places of the entries, one for each. */
  ghost predicate Placed(t: Tree, path: string, lines: seq<Line>, active: set<string>, reports: bool, entries: seq<Entry>,
                         places: seq<Place>) {
    && InOrder(places) && |places| == |entries|
    && (forall k :: 0 <= k < |places| ==> Found(t, path, lines, active, places[k], entries[k]))
    && (forall place, entry :: Found(t, path, lines, active, place, entry) && entry.Report? == reports ==> place in places)
  }

  lemma EntriesPlus(a: Collected, b: Collected, reports: bool)
    ensures Entries(a.Plus(b), reports) == Entries(a, reports) + Entries(b, reports)
  {
  }

  // ----- moving places -----

  function Below(places: seq<Place>): seq<Place> { seq(|places|, i requires 0 <= i < |places| => [0] + places[i]) }

  function Moved(place: Place): Place { if place == [] then [] else [place[0] + 1] + place[1..] }

  function AllMoved(places: seq<Place>): seq<Place> { seq(|places|, i requires 0 <= i < |places| => Moved(places[i])) }

  lemma EarlierBelow(p: Place, q: Place)
    requires Earlier(p, q)
    ensures Earlier([0] + p, [0] + q)
  {
    var i: nat :| i < |p| && i < |q| && p[i] < q[i] && SameUpTo(p, q, i);
    assert SameUpTo([0] + p, [0] + q, i + 1);
  }

  lemma EarlierMoved(p: Place, q: Place)
    requires p != [] && q != [] && Earlier(p, q)
    ensures Earlier(Moved(p), Moved(q))
  {
    var i: nat :| i < |p| && i < |q| && p[i] < q[i] && SameUpTo(p, q, i);
    assert SameUpTo(Moved(p), Moved(q), i);
  }

  lemma FirstIsEarlier(p: Place, q: Place)
    requires p != [] && q != [] && p[0] == 0
    ensures Earlier(p, Moved(q))
  {
    assert SameUpTo(p, Moved(q), 0);
  }

  // ----- one line, then the rest -----

  /** Places on the first line stay, places on later lines move down by one. */
  lemma FoundSplits(t: Tree, path: string, lines: seq<Line>, active: set<string>, place: Place, entry: Entry)
    requires lines != [] && place != []
    ensures place[0] == 0 ==> (Found(t, path, lines, active, place, entry) <==> Found(t, path, [lines[0]], active, place, entry))
    ensures Found(t, path, lines[1..], active, place, entry) <==> Found(t, path, lines, active, Moved(place), entry)
  {
    var down := Moved(place);
    assert down[1..] == place[1..];
  }

  lemma LaterPlace(t: Tree, path: string, lines: seq<Line>, active: set<string>, place: Place, entry: Entry)
    requires lines != [] && Found(t, path, lines, active, place, entry) && place[0] > 0
    ensures var up := [place[0] - 1] + place[1..]; place == Moved(up) && Found(t, path, lines[1..], active, up, entry)
  {
    var up := [place[0] - 1] + place[1..];
    assert up[1..] == place[1..];
    FoundSplits(t, path, lines, active, up, entry);
  }

  lemma JoinPlaces(t: Tree, path: string, lines: seq<Line>, active: set<string>, reports: bool,
                   here: seq<Entry>, later: seq<Entry>, first: seq<Place>, rest: seq<Place>)
    requires lines != []
    requires Placed(t, path, [lines[0]], active, reports, here, first)
    requires Placed(t, path, lines[1..], active, reports, later, rest)
    ensures Placed(t, path, lines, active, reports, here + later, first + AllMoved(rest))
  {
    hide Adds, Earlier;
    assert forall k :: 0 <= k < |rest| ==> Found(t, path, lines[1..], active, rest[k], later[k]);
    assert forall k :: 0 <= k < |first| ==> Found(t, path, [lines[0]], active, first[k], here[k]);
    var moved := AllMoved(rest);
    var places, entries := first + moved, here + later;
    forall k | 0 <= k < |places| ensures Found(t, path, lines, active, places[k], entries[k]) {
      if k < |first| {
        assert Found(t, path, [lines[0]], active, first[k], here[k]);
        FoundSplits(t, path, lines, active, first[k], here[k]);
      } else {
        var n := k - |first|;
        assert places[k] == Moved(rest[n]) && entries[k] == later[n];
        FoundSplits(t, path, lines, active, rest[n], later[n]);
      }
    }
    forall i, j | 0 <= i < j < |places| ensures Earlier(places[i], places[j]) {
      JoinedOrder(first, rest, i, j);
    }
    forall place, entry | Found(t, path, lines, active, place, entry) && entry.Report? == reports ensures place in places {
      PlaceJoined(t, path, lines, active, reports, here, later, first, rest, place, entry);
    }
  }

  lemma PlaceJoined(t: Tree, path: string, lines: seq<Line>, active: set<string>, reports: bool, here: seq<Entry>, later: seq<Entry>,
                    first: seq<Place>, rest: seq<Place>, place: Place, entry: Entry)
    requires lines != []
    requires Placed(t, path, [lines[0]], active, reports, here, first)
    requires Placed(t, path, lines[1..], active, reports, later, rest)
    requires Found(t, path, lines, active, place, entry) && entry.Report? == reports
    ensures place in first + AllMoved(rest)
  {
    hide Adds, InOrder;
    if place[0] == 0 {
      FoundSplits(t, path, lines, active, place, entry);
      assert place in first;
    } else {
      LaterPlace(t, path, lines, active, place, entry);
      var up := [place[0] - 1] + place[1..];
      var n :| 0 <= n < |rest| && rest[n] == up;
      assert (first + AllMoved(rest))[|first| + n] == Moved(up);
    }
  }

  lemma JoinedOrder(first: seq<Place>, rest: seq<Place>, i: nat, j: nat)
    requires InOrder(first) && InOrder(rest) && (forall k :: 0 <= k < |rest| ==> rest[k] != [])
    requires forall k :: 0 <= k < |first| ==> first[k] != [] && first[k][0] == 0
    requires i < j < |first| + |rest|
    ensures var places := first + AllMoved(rest); Earlier(places[i], places[j])
  {
    hide Earlier;
    if j < |first| {
    } else if i < |first| {
      FirstIsEarlier(first[i], rest[j - |first|]);
    } else {
      EarlierMoved(rest[i - |first|], rest[j - |first|]);
    }
  }

  /** A line that is not followed adds at most one entry. */
  lemma PlainLine(t: Tree, path: string, line: Line, active: set<string>, reports: bool) returns (places: seq<Place>)
    requires line.Include? ==> t.resolve(path, line.target) !in t.files.Keys - active
    ensures Placed(t, path, [line], active, reports, Entries(Contribution(t, path, line, active), reports), places)
  {
    var entries := Entries(Contribution(t, path, line, active), reports);
    places := if entries == [] then [] else [[0]];
    assert |entries| <= 1;
    if entries != [] {
      var p: Place := [0];
      assert Adds(t, path, line, active, entries[0]);
      assert Found(t, path, [line], active, p, entries[0]);
    }
    forall place, entry | Found(t, path, [line], active, place, entry) && entry.Report? == reports ensures place in places {
      assert place == [0] && Adds(t, path, line, active, entry);
      assert entries == [entry];
    }
  }

  lemma NestedPlaces(t: Tree, path: string, line: Line, active: set<string>, reports: bool, entries: seq<Entry>, inside: seq<Place>)
    requires line.Include?
    requires var next := t.resolve(path, line.target);
             && next !in active && next in t.files
             && Placed(t, next, t.files[next], active + {next}, reports, entries, inside)
    ensures Placed(t, path, [line], active, reports, entries, Below(inside))
  {
    hide Earlier;
    var next := t.resolve(path, line.target);
    var places := Below(inside);
    forall k | 0 <= k < |places| ensures Found(t, path, [line], active, places[k], entries[k]) {
      assert places[k][1..] == inside[k];
      assert Found(t, next, t.files[next], active + {next}, inside[k], entries[k]);
    }
    forall i, j | 0 <= i < j < |places| ensures Earlier(places[i], places[j]) {
      EarlierBelow(inside[i], inside[j]);
    }
    forall place, entry | Found(t, path, [line], active, place, entry) && entry.Report? == reports ensures place in places {
      assert place[0] == 0 && |place| > 1;
      assert Found(t, next, t.files[next], active + {next}, place[1..], entry);
      assert place[1..] in inside;
      var n :| 0 <= n < |inside| && inside[n] == place[1..];
      assert places[n] == [0] + place[1..] && place == [0] + place[1..];
    }
  }

  // ----- the whole collection -----

  /** The requirements, and likewise the messages, correspond one to one and in order to the places that add
      them: whatever the include graph, nothing is lost, repeated or moved. */
  lemma {:induction false} CollectedExactly(t: Tree, path: string, lines: seq<Line>, active: set<string>, reports: bool)
    returns (places: seq<Place>)
    ensures Placed(t, path, lines, active, reports, Entries(Collect(t, path, lines, active), reports), places)
    decreases |t.files.Keys - active|, |lines|
  {
    if lines == [] {
      places := [];
    } else {
      hide Placed;
      var here, later := Contribution(t, path, lines[0], active), Collect(t, path, lines[1..], active);
      var first := LinePlaces(t, path, lines[0], active, reports);
      var rest := CollectedExactly(t, path, lines[1..], active, reports);
      JoinPlaces(t, path, lines, active, reports, Entries(here, reports), Entries(later, reports), first, rest);
      EntriesPlus(here, later, reports);
      places := first + AllMoved(rest);
    }
  }

  lemma {:induction false} LinePlaces(t: Tree, path: string, line: Line, active: set<string>, reports: bool)
    returns (places: seq<Place>)
    ensures Placed(t, path, [line], active, reports, Entries(Contribution(t, path, line, active), reports), places)
    decreases |t.files.Keys - active|, 0
  {
    hide Placed;
    if line.Include? && t.resolve(path, line.target) !in active && t.resolve(path, line.target) in t.files {
      var next := t.resolve(path, line.target);
      Narrowed(t.files.Keys, active, next);
      var inside := CollectedExactly(t, next, t.files[next], active + {next}, reports);
      NestedPlaces(t, path, line, active, reports, Entries(Contribution(t, path, line, active), reports), inside);
      places := Below(inside);
    } else {
      places := PlainLine(t, path, line, active, reports);
    }
  }
}
