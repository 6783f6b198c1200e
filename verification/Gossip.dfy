/** Any number of nodes meeting two at a time: what each holds after any sequence of exchanges. */
module Gossip {
  import opened Paths
  import opened Lattice
  import opened Node
  import opened Settle
  import opened Exchange
  import opened Swarm

  /** Two nodes exchanging a digest each way. */
  datatype Meeting = Meeting(a: nat, b: nat, trip: Trip)

  ghost predicate Takes(nodes: seq<State>, m: Meeting, fileOf: Hash -> Path) {
    && m.a < |nodes| && m.b < |nodes| && m.a != m.b
    && Carried(nodes[m.a], nodes[m.b], m.trip, fileOf)
    && FreshBoth(nodes[m.a], nodes[m.b], m.trip.wall) && FreshBoth(nodes[m.a], nodes[m.b], m.trip.wall')
  }

  ghost function Met(nodes: seq<State>, m: Meeting): (after: seq<State>)
    requires m.a < |nodes| && m.b < |nodes|
  {
    var (a, b) := Ended(nodes[m.a], nodes[m.b], m.trip);
    nodes[m.a := a][m.b := b]
  }

  /** The meetings took place one after another, the nodes being `past[k]` before the `k`-th. */
  ghost predicate TakePlace(past: seq<seq<State>>, ms: seq<Meeting>, fileOf: Hash -> Path) {
    && |past| == |ms| + 1
    && (forall i :: 0 <= i < |past[0]| ==> Settled(past[0][i], fileOf))
    && forall k :: 0 <= k < |ms| ==> Takes(past[k], ms[k], fileOf) && past[k + 1] == Met(past[k], ms[k])
  }

  // ---- Who has heard of whom ----

  /** Whose starting values have reached the `i`-th of `n` nodes: at first its own, and at a meeting
      both sides learn what either knows. */
  function Known(ms: seq<(nat, nat)>, i: nat): (ks: set<nat>)
    decreases |ms|
  {
    if |ms| == 0 then {i}
    else
      var (a, b) := ms[|ms| - 1];
      var before := ms[..|ms| - 1];
      if i == a || i == b then Known(before, a) + Known(before, b) else Known(before, i)
  }

  function Pairs(ms: seq<Meeting>): (ps: seq<(nat, nat)>) {
    seq(|ms|, i requires 0 <= i < |ms| => (ms[i].a, ms[i].b))
  }

  /** The greatest of what the nodes in `ks` started with. */
  ghost predicate Greatest(first: seq<State>, ks: set<nat>, p: Path, c: Cell) {
    && (forall k :: k in ks ==> k < |first| && AtMost(CellAt(first[k], p), c))
    && exists k :: k in ks && k < |first| && CellAt(first[k], p) == c
  }

  lemma GreatestOfBoth(first: seq<State>, js: set<nat>, ks: set<nat>, p: Path, c: Cell, d: Cell)
    requires Greatest(first, js, p, c) && Greatest(first, ks, p, d)
    ensures Greatest(first, js + ks, p, Join(c, d))
  {
    hide CellAt;
    forall k | k in js + ks
      ensures k < |first| && AtMost(CellAt(first[k], p), Join(c, d))
    {
      CellsAreTotallyOrdered(CellAt(first[k], p), c, d);
      CellsAreTotallyOrdered(CellAt(first[k], p), d, c);
      CellsAreTotallyOrdered(c, d, CellAt(first[k], p));
    }
    var j :| j in js && j < |first| && CellAt(first[j], p) == c;
    var k :| k in ks && k < |first| && CellAt(first[k], p) == d;
    assert j in js + ks && k in js + ks;
  }

  /** After any sequence of exchanges every node holds, path by path, exactly the greatest of what the
      nodes it has heard of started with. */
  lemma {:induction false} MeetingsJoin(past: seq<seq<State>>, ms: seq<Meeting>, k: nat, i: nat, p: Path,
                                        fileOf: Hash -> Path)
    requires TakePlace(past, ms, fileOf) && k <= |ms| && i < |past[0]|
    ensures |past[k]| == |past[0]| && Settled(past[k][i], fileOf)
    ensures Greatest(past[0], Known(Pairs(ms)[..k], i), p, CellAt(past[k][i], p))
    decreases k
  {
    hide CellAt, Settled, Carried, FreshBoth, Ended, Greatest;
    if k == 0 {
      OwnIsGreatest(past[0], i, p);
    } else {
      var m, before, pairs := ms[k - 1], past[k - 1], Pairs(ms);
      assert pairs[..k][..k - 1] == pairs[..k - 1] && pairs[..k][k - 1] == (m.a, m.b);
      NobodyLeaves(past, ms, k - 1, fileOf);
      MeetingsJoin(past, ms, k - 1, i, p, fileOf);
      MeetingsJoin(past, ms, k - 1, m.a, p, fileOf);
      MeetingsJoin(past, ms, k - 1, m.b, p, fileOf);
      ExchangeJoins(before[m.a], before[m.b], m.trip, p, fileOf);
      GreatestOfBoth(past[0], Known(pairs[..k - 1], m.a), Known(pairs[..k - 1], m.b), p,
                     CellAt(before[m.a], p), CellAt(before[m.b], p));
    }
  }

  lemma {:induction false} NobodyLeaves(past: seq<seq<State>>, ms: seq<Meeting>, k: nat, fileOf: Hash -> Path)
    requires TakePlace(past, ms, fileOf) && k <= |ms|
    ensures |past[k]| == |past[0]|
  {
    hide Carried, FreshBoth, Ended, Settled;
    if k > 0 {
      NobodyLeaves(past, ms, k - 1, fileOf);
    }
  }

  lemma OwnIsGreatest(first: seq<State>, i: nat, p: Path)
    requires i < |first|
    ensures Greatest(first, {i}, p, CellAt(first[i], p))
  {
    CellsAreTotallyOrdered(CellAt(first[i], p), CellAt(first[i], p), Nothing);
  }

  // ---- Everybody hears of everybody ----

  ghost predicate AllKnown(ps: seq<(nat, nat)>, n: nat) {
    forall i, k :: 0 <= i < n && 0 <= k < n ==> k in Known(ps, i)
  }

  lemma GreatestIsTop(first: seq<State>, ks: set<nat>, p: Path, c: Cell)
    requires Greatest(first, ks, p, c) && forall k :: 0 <= k < |first| ==> k in ks
    ensures c == Top(first, p)
  {
    hide CellAt, Top;
    TopIsGreatest(first, p);
    var k :| k in ks && k < |first| && CellAt(first[k], p) == c;
    if !Top(first, p).Nothing? {
      var j :| 0 <= j < |first| && CellAt(first[j], p) == Top(first, p);
      assert j in ks;
    }
    CellsAreTotallyOrdered(c, Top(first, p), c);
  }

  lemma NoEdits(first: seq<State>, p: Path)
    ensures Ceiling(Source(first, []), p) == Top(first, p)
  {
  }

  /** Whatever the nodes start with: once exchanges have carried word of every node to every other,
      whoever met whom and in whichever order, all hold the join of what they started with, and no
      one has anything left to adopt or to repair. */
  lemma EveryoneConverges(past: seq<seq<State>>, ms: seq<Meeting>, now: int, fileOf: Hash -> Path)
    requires TakePlace(past, ms, fileOf) && AllKnown(Pairs(ms), |past[0]|)
    ensures |past[|ms|]| == |past[0]| && Converged(past[|ms|], Source(past[0], [])) && Quiet(past[|ms|], now)
  {
    hide CellAt, Settled, Takes, Met, Greatest, Top, Ceiling, Quiet;
    var first, last := past[0], past[|ms|];
    assert Pairs(ms)[..|ms|] == Pairs(ms);
    NobodyLeaves(past, ms, |ms|, fileOf);
    forall i, p | 0 <= i < |last|
      ensures CellAt(last[i], p) == Ceiling(Source(first, []), p)
    {
      MeetingsJoin(past, ms, |ms|, i, p, fileOf);
      GreatestIsTop(first, Known(Pairs(ms), i), p, CellAt(last[i], p));
      NoEdits(first, p);
    }
    forall i | 0 <= i < |last|
      ensures Tidy(View(last[i]))
    {
      MeetingsJoin(past, ms, |ms|, i, [], fileOf);
      SettledIsTidy(last[i], fileOf);
    }
    EqualMeansQuiet(last, Source(first, []), now);
  }

  // ---- Two sweeps are enough ----

  /** The first node meets every other in turn, and then once more. */
  function Sweeps(n: nat): (ps: seq<(nat, nat)>)
    requires n > 0
  {
    seq(2 * (n - 1), k requires 0 <= k < 2 * (n - 1) => (0 as nat, (if k < n - 1 then k + 1 else k - (n - 1) + 1) as nat))
  }

  lemma {:induction false} NothingIsForgotten(ps: seq<(nat, nat)>, m: nat, i: nat)
    requires m <= |ps|
    ensures Known(ps[..m], i) <= Known(ps, i)
    decreases |ps|
  {
    if m < |ps| {
      var before := ps[..|ps| - 1];
      assert before[..m] == ps[..m];
      NothingIsForgotten(before, m, i);
    } else {
      assert ps[..m] == ps;
    }
  }

  lemma {:induction false} FirstSweep(n: nat, k: nat)
    requires 0 < n && k < n
    ensures forall j :: 0 <= j <= k ==> j in Known(Sweeps(n)[..k], 0)
    decreases k
  {
    var ps := Sweeps(n)[..k];
    if k > 0 {
      var before := Sweeps(n)[..k - 1];
      assert ps[..|ps| - 1] == before && ps[|ps| - 1] == (0, k);
      FirstSweep(n, k - 1);
      KnowsItself(before, k);
    }
  }

  lemma {:induction false} KnowsItself(ps: seq<(nat, nat)>, i: nat)
    ensures i in Known(ps, i)
    decreases |ps|
  {
    if |ps| > 0 {
      KnowsItself(ps[..|ps| - 1], i);
    }
  }

  /** Whatever the number of nodes, two sweeps through one of them carry word of each to all. */
  lemma TwoSweepsTellAll(n: nat)
    requires n > 0
    ensures AllKnown(Sweeps(n), n)
  {
    var ps := Sweeps(n);
    FirstSweep(n, n - 1);
    forall i, k | 0 <= i < n && 0 <= k < n
      ensures k in Known(ps, i)
    {
      if i == 0 {
        NothingIsForgotten(ps, n - 1, 0);
      } else {
        var at := n - 1 + i;
        var told := ps[..at];
        assert told[|told| - 1] == (0, i) && told[..|told| - 1] == ps[..at - 1];
        assert ps[..at - 1][..n - 1] == ps[..n - 1];
        NothingIsForgotten(ps[..at - 1], n - 1, 0);
        NothingIsForgotten(ps, at, i);
      }
    }
  }

  /** So any nodes at all converge in two sweeps. */
  lemma TwoSweepsConverge(past: seq<seq<State>>, ms: seq<Meeting>, now: int, fileOf: Hash -> Path)
    requires TakePlace(past, ms, fileOf) && |past[0]| > 0 && Pairs(ms) == Sweeps(|past[0]|)
    ensures |past[|ms|]| == |past[0]| && Converged(past[|ms|], Source(past[0], [])) && Quiet(past[|ms|], now)
  {
    hide Takes, Met, Converged, Quiet;
    TwoSweepsTellAll(|past[0]|);
    EveryoneConverges(past, ms, now, fileOf);
  }
}
