/** Sorted-merge set operations over two listings, and the difference between two of them. */
module Files {
  import opened Paths
  import opened Wire

  /** The order a merge goes by: the name alone, or the name and then the time. */
  predicate Before(byName: bool, a: Timed, b: Timed) {
    Less(a.path, b.path) || (!byName && a.path == b.path && a.at < b.at)
  }

  predicate Same(byName: bool, a: Timed, b: Timed) {
    a.path == b.path && (byName || a.at == b.at)
  }

  lemma BeforeIsOrder(byName: bool, a: Timed, b: Timed, c: Timed)
    ensures Before(byName, a, b) || Before(byName, b, a) || Same(byName, a, b)
    ensures Before(byName, a, b) ==> !Same(byName, a, b)
    ensures Before(byName, a, b) && Before(byName, b, c) ==> Before(byName, a, c)
    ensures Same(byName, a, b) && Less(b.path, c.path) ==> Before(byName, a, c)
  {
    LessTotal(a.path, b.path);
    LessIrreflexive(a.path);
    if Less(a.path, b.path) && Less(b.path, c.path) {
      LessTransitive(a.path, b.path, c.path);
    }
  }

  predicate Matched(byName: bool, e: Timed, m: TimeMap) {
    e.path in m && (byName || m[e.path] == e.at)
  }

  /** The entries of one map with no match in the other, and those with one. */
  function Unmatched(byName: bool, left: TimeMap, right: TimeMap): (kept: TimeMap) {
    map p | p in left && !Matched(byName, Timed(p, left[p]), right) :: left[p]
  }

  function Shared(left: TimeMap, right: TimeMap): (shared: TimeMap) {
    map p | p in left && p in right :: left[p]
  }

  lemma ListingAscends(m: TimeMap, i: nat, j: nat)
    requires i < j < |m|
    ensures Less(Listing(m)[i].path, Listing(m)[j].path)
  {
    assert Listing(m)[i].path == Sorted(m.Keys)[i] && Listing(m)[j].path == Sorted(m.Keys)[j];
  }

  /** Where a merge stands: all it has passed on the right comes before what is next on the left. */
  ghost predicate Passed(byName: bool, left: TimeMap, right: TimeMap, i: nat, j: nat) {
    && i <= |left| && j <= |right|
    && (j > 0 && i < |left| ==> Before(byName, Listing(right)[j - 1], Listing(left)[i]))
  }

  lemma PassNothing(byName: bool, left: TimeMap, right: TimeMap)
    ensures Passed(byName, left, right, 0, 0)
  {
  }

  lemma PassRight(byName: bool, left: TimeMap, right: TimeMap, i: nat, j: nat)
    requires i < |left| && j < |right| && Before(byName, Listing(right)[j], Listing(left)[i])
    ensures Passed(byName, left, right, i, j + 1)
  {
  }

  lemma PassLeft(byName: bool, left: TimeMap, right: TimeMap, i: nat, j: nat)
    requires Passed(byName, left, right, i, j) && i < |left|
    ensures Passed(byName, left, right, i + 1, j)
  {
    if j > 0 && i + 1 < |left| {
      ListingAscends(left, i, i + 1);
      BeforeIsOrder(byName, Listing(right)[j - 1], Listing(left)[i], Listing(left)[i + 1]);
    }
  }

  lemma PassBoth(byName: bool, left: TimeMap, right: TimeMap, i: nat, j: nat)
    requires i < |left| && j < |right| && Same(byName, Listing(left)[i], Listing(right)[j])
    ensures Passed(byName, left, right, i + 1, j + 1)
    ensures Matched(byName, Listing(left)[i], right) && Listing(left)[i].path in right
  {
    if i + 1 < |left| {
      ListingAscends(left, i, i + 1);
    }
  }

  /** Nothing on the right can match what comes before all that is left there. */
  lemma NoMatch(byName: bool, left: TimeMap, right: TimeMap, i: nat, j: nat)
    requires Passed(byName, left, right, i, j) && i < |left|
    requires j < |right| ==> Before(byName, Listing(left)[i], Listing(right)[j])
    ensures !Matched(byName, Listing(left)[i], right)
    ensures byName ==> Listing(left)[i].path !in right
  {
    var e := Listing(left)[i];
    if e.path in right {
      var k := ListingCovers(right, e.path);
      var f := Listing(right)[k];
      if k < j {
        if k < j - 1 {
          ListingAscends(right, k, j - 1);
          BeforeIsOrder(byName, f, Listing(right)[j - 1], e);
        }
        BeforeIsOrder(byName, f, e, e);
      } else {
        if j < k {
          ListingAscends(right, j, k);
          BeforeIsOrder(byName, e, Listing(right)[j], f);
        }
        BeforeIsOrder(byName, e, f, f);
      }
    }
  }

  /** What a merge has kept after `i` entries on the left. */
  ghost function KeptSoFar(byName: bool, left: TimeMap, right: TimeMap, i: nat): (kept: TimeMap)
    requires i <= |left|
  {
    Unmatched(byName, Slice(left, Visited(Sorted(left.Keys), i)), right)
  }

  lemma UnmatchedGrow(byName: bool, left: TimeMap, right: TimeMap, s: set<Path>, p: Path)
    requires p in left
    ensures Unmatched(byName, Slice(left, s + {p}), right) ==
            if Matched(byName, Timed(p, left[p]), right) then Unmatched(byName, Slice(left, s), right)
            else Unmatched(byName, Slice(left, s), right)[p := left[p]]
  {
  }

  lemma KeepTurn(byName: bool, left: TimeMap, right: TimeMap, i: nat)
    requires i < |left|
    ensures var e := Listing(left)[i];
            KeptSoFar(byName, left, right, i + 1) ==
            if Matched(byName, e, right) then KeptSoFar(byName, left, right, i)
            else KeptSoFar(byName, left, right, i)[e.path := e.at]
  {
    var e := Listing(left)[i];
    VisitNext(Sorted(left.Keys), i);
    UnmatchedGrow(byName, left, right, Visited(Sorted(left.Keys), i), e.path);
  }

  lemma KeepEnds(byName: bool, left: TimeMap, right: TimeMap)
    ensures KeptSoFar(byName, left, right, 0) == map[]
    ensures KeptSoFar(byName, left, right, |left|) == Unmatched(byName, left, right)
  {
    WholeSlice(left);
    assert Unmatched(byName, map[], right) == map[];
  }

  /** `set_difference` of two maps. */
  method Difference(byName: bool, left: TimeMap, right: TimeMap) returns (out: TimeMap)
    ensures out == Unmatched(byName, left, right)
  {
    hide *;
    out := map[];
    var ls, rs := Listing(left), Listing(right);
    var i, j := 0, 0;
    KeepEnds(byName, left, right);
    PassNothing(byName, left, right);
    while i < |ls|
      invariant i <= |left| && j <= |right|
      invariant Passed(byName, left, right, i, j)
      invariant out == KeptSoFar(byName, left, right, i)
      decreases |ls| - i + |rs| - j
    {
      if j == |rs| || Before(byName, ls[i], rs[j]) {
        NoMatch(byName, left, right, i, j);
        PassLeft(byName, left, right, i, j);
        KeepTurn(byName, left, right, i);
        out := out[ls[i].path := ls[i].at];
        i := i + 1;
      } else if Before(byName, rs[j], ls[i]) {
        PassRight(byName, left, right, i, j);
        j := j + 1;
      } else {
        BeforeIsOrder(byName, ls[i], rs[j], rs[j]);
        PassBoth(byName, left, right, i, j);
        KeepTurn(byName, left, right, i);
        i, j := i + 1, j + 1;
      }
    }
  }

  lemma SharedGrow(left: TimeMap, right: TimeMap, s: set<Path>, p: Path)
    requires p in left
    ensures Shared(Slice(left, s + {p}), right) ==
            if p in right then Shared(Slice(left, s), right)[p := left[p]]
            else Shared(Slice(left, s), right)
  {
  }

  ghost function SharedSoFar(left: TimeMap, right: TimeMap, i: nat): (shared: TimeMap)
    requires i <= |left|
  {
    Shared(Slice(left, Visited(Sorted(left.Keys), i)), right)
  }

  lemma ShareTurn(left: TimeMap, right: TimeMap, i: nat)
    requires i < |left|
    ensures var e := Listing(left)[i];
            SharedSoFar(left, right, i + 1) ==
            if e.path in right then SharedSoFar(left, right, i)[e.path := e.at]
            else SharedSoFar(left, right, i)
  {
    VisitNext(Sorted(left.Keys), i);
    SharedGrow(left, right, Visited(Sorted(left.Keys), i), Listing(left)[i].path);
  }

  lemma ShareNothing(left: TimeMap, right: TimeMap)
    ensures SharedSoFar(left, right, 0) == map[]
  {
    WholeSlice(left);
  }

  lemma ShareAll(left: TimeMap, right: TimeMap)
    ensures SharedSoFar(left, right, |left|) == Shared(left, right)
  {
    WholeSlice(left);
  }

  /** Once the right is used up nothing more is shared. */
  lemma {:induction false} NothingLeft(left: TimeMap, right: TimeMap, i: nat)
    requires Passed(true, left, right, i, |right|)
    ensures SharedSoFar(left, right, i) == Shared(left, right)
    decreases |left| - i
  {
    if i == |left| {
      ShareAll(left, right);
    } else {
      NoMatch(true, left, right, i, |right|);
      PassLeft(true, left, right, i, |right|);
      ShareTurn(left, right, i);
      NothingLeft(left, right, i + 1);
    }
  }

  /** `set_intersection` of two maps by name, which takes its entries from the left. */
  method Intersection(left: TimeMap, right: TimeMap) returns (out: TimeMap)
    ensures out == Shared(left, right)
  {
    hide *;
    out := map[];
    var ls, rs := Listing(left), Listing(right);
    var i, j := 0, 0;
    ShareNothing(left, right);
    PassNothing(true, left, right);
    while i < |ls| && j < |rs|
      invariant i <= |left| && j <= |right|
      invariant Passed(true, left, right, i, j)
      invariant out == SharedSoFar(left, right, i)
      decreases |ls| - i + |rs| - j
    {
      if Before(true, ls[i], rs[j]) {
        NoMatch(true, left, right, i, j);
        PassLeft(true, left, right, i, j);
        ShareTurn(left, right, i);
        i := i + 1;
      } else if Before(true, rs[j], ls[i]) {
        PassRight(true, left, right, i, j);
        j := j + 1;
      } else {
        BeforeIsOrder(true, ls[i], rs[j], rs[j]);
        PassBoth(true, left, right, i, j);
        ShareTurn(left, right, i);
        out := out[ls[i].path := ls[i].at];
        i, j := i + 1, j + 1;
      }
    }
    if j == |rs| {
      NothingLeft(left, right, i);
    } else {
      ShareAll(left, right);
    }
  }

  // ---- The difference between two listings ----

  datatype Diff = Diff(removed: TimeMap, created: TimeMap, modified: TimeMap)

  /** Gone, new, and retimed; a retimed path is listed with the time it had before. */
  ghost function Changes(former: TimeMap, current: TimeMap): (diff: Diff) {
    Diff(map p | p in former && p !in current :: former[p],
         map p | p in current && p !in former :: current[p],
         map p | p in former && p in current && former[p] != current[p] :: former[p])
  }

  lemma MergesMakeTheDiff(former: TimeMap, current: TimeMap)
    ensures var removed, created := Unmatched(false, former, current), Unmatched(false, current, former);
            var modified := Shared(removed, created);
            Changes(former, current) ==
            Diff(Unmatched(true, removed, modified), Unmatched(true, created, modified), modified)
  {
    var removed, created := Unmatched(false, former, current), Unmatched(false, current, former);
    var modified, diff := Shared(removed, created), Changes(former, current);
    assert modified == diff.modified;
    assert Unmatched(true, removed, modified) == diff.removed;
    assert Unmatched(true, created, modified) == diff.created;
  }

  method CreateDiff(former: TimeMap, current: TimeMap) returns (diff: Diff)
    ensures diff == Changes(former, current)
  {
    var removed := Difference(false, former, current);
    var created := Difference(false, current, former);
    var modified := Intersection(removed, created);
    var removedOnly := Difference(true, removed, modified);
    var createdOnly := Difference(true, created, modified);
    diff := Diff(removedOnly, createdOnly, modified);
    MergesMakeTheDiff(former, current);
  }

  /** The three parts never name a path twice, and replaying them turns the former listing into the
      current one. */
  lemma DiffReplays(former: TimeMap, current: TimeMap)
    ensures var diff := Changes(former, current);
            && diff.removed.Keys !! diff.created.Keys !! diff.modified.Keys
            && diff.created.Keys + diff.modified.Keys <= current.Keys
            && (former - diff.removed.Keys) + Slice(current, diff.created.Keys + diff.modified.Keys)
               == current
            && (diff == Diff(map[], map[], map[]) <==> former == current)
  {
    var diff := Changes(former, current);
    assert (former - diff.removed.Keys) + Slice(current, diff.created.Keys + diff.modified.Keys)
           == current;
    if diff == Diff(map[], map[], map[]) {
      forall p
        ensures p in former <==> p in current
        ensures p in former ==> former[p] == current[p]
      {
        assert p !in diff.removed && p !in diff.created && p !in diff.modified;
      }
      assert former == current;
    }
  }

  /** Path by path: gone, new or retimed, and the last under the time it had before. */
  lemma DiffExactly(former: TimeMap, current: TimeMap, p: Path)
    ensures var diff := Changes(former, current);
            && (p in diff.removed <==> p in former && p !in current)
            && (p in diff.created <==> p in current && p !in former)
            && (p in diff.modified <==> p in former && p in current && former[p] != current[p])
            && (p in diff.removed ==> diff.removed[p] == former[p])
            && (p in diff.created ==> diff.created[p] == current[p])
            && (p in diff.modified ==> diff.modified[p] == former[p])
  {
  }
}
