/** Runs in which nodes hear from each other, however their messages are mixed up with others: what they
    then hold. */
module Hearsay {
  import opened Paths
  import opened Decimal
  import opened Wire
  import opened Reconcile
  import opened Lattice
  import opened Node
  import opened Settle
  import opened Exchange
  import opened Swarm

  /** The states a run goes through. */
  ghost predicate Unfolds(past: seq<Swarm>, steps: seq<Step>, w: World) {
    && |past| == |steps| + 1
    && forall k :: 0 <= k < |steps| ==> Enabled(past[k], steps[k], w) && past[k + 1] == After(past[k], steps[k], w)
  }

  lemma {:induction false} StaysSound(past: seq<Swarm>, steps: seq<Step>, w: World, first: seq<State>, k: nat)
    requires Unfolds(past, steps, w) && Sound(past[0], first, w) && k <= |steps|
    ensures Sound(past[k], first, w)
  {
    hide Sound, Enabled, After;
    if k > 0 {
      StaysSound(past, steps, w, first, k - 1);
      StepIsSound(past[k - 1], steps[k - 1], w, first);
    }
  }

  lemma {:induction false} ClimbsBetween(past: seq<Swarm>, steps: seq<Step>, w: World, first: seq<State>, i: nat, j: nat)
    requires Unfolds(past, steps, w) && Sound(past[0], first, w) && i <= j <= |steps|
    ensures Climbed(past[i], past[j])
    decreases j
  {
    hide Sound, Enabled, After, Climbed;
    if i == j {
      StaysClimbed(past[i]);
    } else {
      ClimbsBetween(past, steps, w, first, i, j - 1);
      StaysSound(past, steps, w, first, j - 1);
      StepIsSound(past[j - 1], steps[j - 1], w, first);
      ClimbedTransitive(past[i], past[j - 1], past[j]);
    }
  }

  // ---- One node hears from another ----

  /** Node `a` hears from node `b`: a digest of `a` as it stood at `asked` is read by `b` in step `read`, a
      digest of `b` as it stood then is read by `a` in step `told`, and whatever `b` has to repair is
      delivered to `a`, all before `done`. */
  datatype Hearing = Hearing(a: nat, b: nat, asked: nat, read: nat, told: nat, done: nat)

  ghost predicate Timed(h: Hearing, past: seq<Swarm>, steps: seq<Step>) {
    && |past| == |steps| + 1 && h.asked <= h.done && h.read < h.done && h.told < h.done <= |steps|
    && h.a < |past[h.asked].nodes| && h.b < |past[h.read + 1].nodes|
  }

  ghost predicate Repaired(h: Hearing, steps: seq<Step>, p: Path, at: Ticks)
    requires h.done <= |steps|
  {
    exists y :: 0 <= y < h.done && steps[y].Deliver? && steps[y].node == h.a
                && steps[y].repair.Repair? && steps[y].repair.path == p && at <= steps[y].repair.origin
  }

  ghost predicate Happens(h: Hearing, past: seq<Swarm>, steps: seq<Step>, w: World) {
    && Timed(h, past, steps) && h.b < |w.names|
    && var a, b := past[h.asked].nodes[h.a], past[h.read + 1].nodes[h.b];
       && steps[h.read].Read? && steps[h.read].node == h.b
       && steps[h.read].digest == Digest(w.names[h.b], Encoded(a.former), Encoded(a.graves))
       && steps[h.told].Read? && steps[h.told].node == h.a && steps[h.told].digest.Digest?
       && steps[h.told].digest.graves == Encoded(b.graves) && Fresh(b.graves, steps[h.told].wall)
       && forall p :: p in Gaps(b.former, b.graves, a.former) ==> p in b.former && Repaired(h, steps, p, b.former[p])
  }

  lemma ReadRaises(n: State, d: Packet, wall: int, now: int, graves: TimeMap, p: Path, fileOf: Hash -> Path)
    requires Settled(n, fileOf) && d.Digest? && d.graves == Encoded(graves) && Fresh(graves, wall)
    requires p in graves
    ensures AtMost(Grave(graves[p]), CellAt(DigestRead(n, d.held, d.graves, wall, now), p))
  {
    RoundTrip(graves);
    DigestIsAdoption(n, d.held, d.graves, wall, now, fileOf);
    AdoptionIsJoin(View(n), graves, wall, p);
    JoinIsLeastUpperBound(CellAt(n, p), Grave(graves[p]), Nothing);
  }

  lemma DeliveryRaises(n: State, r: Packet, written: Ticks, flushed: Ticks, fileOf: Hash -> Path)
    requires Settled(n, fileOf) && r.Repair? && WellSaid(r, fileOf) && written <= flushed
    ensures AtMost(File(r.origin), CellAt(Delivered(n, r.what, r.origin, r.path, written, flushed), r.path))
  {
    DeliveryIsReception(n, r.what, r.origin, r.path, written, flushed, fileOf);
    ReceptionIsJoin(View(n), r.path, r.origin, r.path);
    JoinIsLeastUpperBound(CellAt(n, r.path), File(r.origin), Nothing);
  }

  /** What one step of a sound run does to its node is what the node is afterwards. */
  lemma StepLands(past: seq<Swarm>, steps: seq<Step>, w: World, first: seq<State>, k: nat)
    requires Unfolds(past, steps, w) && Sound(past[0], first, w) && k < |steps|
    ensures Sound(past[k], first, w) && steps[k].node < |past[k].nodes| == |past[k + 1].nodes| == |w.names|
    ensures Settled(past[k].nodes[steps[k].node], w.fileOf)
    ensures Allowed(past[k].nodes[steps[k].node], past[k].clocks[steps[k].node], steps[k], past[k].sent, w)
    ensures past[k + 1].nodes[steps[k].node] ==
            NodeAfter(past[k].nodes[steps[k].node], steps[k], w.names[steps[k].node])
  {
    hide Allowed, NodeAfter, PacketsOf, ClockAfter, Settled, Original, Claim, WellSaid, Upheld;
    StaysSound(past, steps, w, first, k);
  }

  lemma RepairReaches(h: Hearing, past: seq<Swarm>, steps: seq<Step>, w: World, first: seq<State>, p: Path, at: Ticks)
    requires Unfolds(past, steps, w) && Sound(past[0], first, w) && Timed(h, past, steps)
    requires Repaired(h, steps, p, at) && h.a < |past[h.done].nodes|
    ensures AtMost(File(at), CellAt(past[h.done].nodes[h.a], p))
  {
    hide Unfolds, Settled, CellAt, Delivered, Original, Claim, WellSaid, Upheld;
    var y :| 0 <= y < h.done && steps[y].Deliver? && steps[y].node == h.a
             && steps[y].repair.Repair? && steps[y].repair.path == p && at <= steps[y].repair.origin;
    var r := steps[y].repair;
    StepLands(past, steps, w, first, y);
    DeliveryRaises(past[y].nodes[h.a], r, steps[y].written, steps[y].flushed, w.fileOf);
    ClimbsBetween(past, steps, w, first, y + 1, h.done);
    CellsAreTotallyOrdered(File(at), File(r.origin), CellAt(past[y + 1].nodes[h.a], p));
    CellsAreTotallyOrdered(File(at), CellAt(past[y + 1].nodes[h.a], p), CellAt(past[h.done].nodes[h.a], p));
  }

  lemma DeletionReaches(h: Hearing, past: seq<Swarm>, steps: seq<Step>, w: World, first: seq<State>,
                        graves: TimeMap, p: Path)
    requires Unfolds(past, steps, w) && Sound(past[0], first, w) && Timed(h, past, steps)
    requires steps[h.told].Read? && steps[h.told].node == h.a && steps[h.told].digest.Digest?
    requires steps[h.told].digest.graves == Encoded(graves) && Fresh(graves, steps[h.told].wall) && p in graves
    requires h.a < |past[h.done].nodes|
    ensures AtMost(Grave(graves[p]), CellAt(past[h.done].nodes[h.a], p))
  {
    hide Unfolds, Settled, CellAt, DigestRead, Original, Claim, WellSaid, Upheld, Encoded, Fresh;
    var k := h.told;
    StepLands(past, steps, w, first, k);
    ReadRaises(past[k].nodes[h.a], steps[k].digest, steps[k].wall, steps[k].now, graves, p, w.fileOf);
    ClimbsBetween(past, steps, w, first, k + 1, h.done);
    CellsAreTotallyOrdered(Grave(graves[p]), CellAt(past[k + 1].nodes[h.a], p), CellAt(past[h.done].nodes[h.a], p));
  }

  /** A listed file that is no gap is one the asker had at least as new. */
  lemma NoGapNoLoss(a: State, b: State, p: Path)
    requires Tidy(View(b)) && p in b.former && p !in Gaps(b.former, b.graves, a.former)
    ensures AtMost(File(b.former[p]), CellAt(a, p))
  {
  }

  lemma SameNodes(past: seq<Swarm>, steps: seq<Step>, w: World, first: seq<State>, k: nat)
    requires Unfolds(past, steps, w) && Sound(past[0], first, w) && k <= |steps|
    ensures |past[k].nodes| == |first|
    ensures forall i :: 0 <= i < |past[k].nodes| ==> Settled(past[k].nodes[i], w.fileOf)
  {
    hide Unfolds, Settled, Original, Claim, WellSaid, Upheld;
    StaysSound(past, steps, w, first, k);
  }

  /** Whatever else goes on meanwhile, a node that heard from another holds, at every path, at least what
      the other held when it read the digest. */
  lemma HearingRaises(h: Hearing, past: seq<Swarm>, steps: seq<Step>, w: World, first: seq<State>, p: Path)
    requires Unfolds(past, steps, w) && Sound(past[0], first, w) && Happens(h, past, steps, w)
    ensures h.a < |past[h.done].nodes|
    ensures AtMost(CellAt(past[h.read + 1].nodes[h.b], p), CellAt(past[h.done].nodes[h.a], p))
  {
    hide Unfolds, Sound, Settled, Gaps, Encoded, Fresh, Repaired;
    var a, b := past[h.asked].nodes[h.a], past[h.read + 1].nodes[h.b];
    SameNodes(past, steps, w, first, h.asked);
    SameNodes(past, steps, w, first, h.done);
    SameNodes(past, steps, w, first, h.read + 1);
    SettledIsTidy(b, w.fileOf);
    if p in b.former {
      if p in Gaps(b.former, b.graves, a.former) {
        RepairReaches(h, past, steps, w, first, p, b.former[p]);
      } else {
        NoGapNoLoss(a, b, p);
        ClimbsBetween(past, steps, w, first, h.asked, h.done);
        CellsAreTotallyOrdered(File(b.former[p]), CellAt(a, p), CellAt(past[h.done].nodes[h.a], p));
      }
    } else if p in b.graves {
      DeletionReaches(h, past, steps, w, first, b.graves, p);
    }
  }

  // ---- Word gets round ----

  /** Whose values at the beginning have reached node `i` by the `k`-th state, going by these hearings,
      listed so that each comes after those it passes on. */
  function Word(hs: seq<Hearing>, i: nat, k: nat): (ks: set<nat>)
    decreases |hs|
  {
    if |hs| == 0 then {i}
    else
      var h, before := hs[|hs| - 1], hs[..|hs| - 1];
      if h.a == i && h.done <= k then Word(before, i, k) + Word(before, h.b, h.read + 1) else Word(before, i, k)
  }

  lemma {:induction false} WordArrives(hs: seq<Hearing>, past: seq<Swarm>, steps: seq<Step>, w: World,
                                       first: seq<State>, i: nat, k: nat, c: nat, p: Path)
    requires Unfolds(past, steps, w) && Sound(past[0], first, w)
    requires forall m :: 0 <= m < |hs| ==> Happens(hs[m], past, steps, w)
    requires i < |first| && k <= |steps| && c in Word(hs, i, k)
    ensures c < |first| == |past[0].nodes| == |past[k].nodes|
    ensures AtMost(CellAt(past[0].nodes[c], p), CellAt(past[k].nodes[i], p))
    decreases |hs|
  {
    hide Enabled, After, Sound, CellAt, Settled, Happens;
    SameNodes(past, steps, w, first, 0);
    SameNodes(past, steps, w, first, k);
    if |hs| == 0 {
      ClimbsBetween(past, steps, w, first, 0, k);
    } else {
      var h, before := hs[|hs| - 1], hs[..|hs| - 1];
      assert forall m :: 0 <= m < |before| ==> before[m] == hs[m];
      if c in Word(before, i, k) {
        WordArrives(before, past, steps, w, first, i, k, c, p);
      } else {
        HappensTimed(h, past, steps, w, first);
        WordArrives(before, past, steps, w, first, h.b, h.read + 1, c, p);
        PassedOn(h, past, steps, w, first, k, CellAt(past[0].nodes[c], p), p);
      }
    }
  }

  lemma HappensTimed(h: Hearing, past: seq<Swarm>, steps: seq<Step>, w: World, first: seq<State>)
    requires Unfolds(past, steps, w) && Sound(past[0], first, w) && Happens(h, past, steps, w)
    ensures h.b < |first| && h.read < h.done <= |steps|
  {
    hide Unfolds, Sound, Settled;
    SameNodes(past, steps, w, first, h.read + 1);
  }

  /** What the other held when it was heard is passed on to every later moment. */
  lemma PassedOn(h: Hearing, past: seq<Swarm>, steps: seq<Step>, w: World, first: seq<State>, k: nat, c: Cell, p: Path)
    requires Unfolds(past, steps, w) && Sound(past[0], first, w) && Happens(h, past, steps, w)
    requires h.done <= k <= |steps| && h.b < |past[h.read + 1].nodes| && AtMost(c, CellAt(past[h.read + 1].nodes[h.b], p))
    ensures h.a < |past[k].nodes| && AtMost(c, CellAt(past[k].nodes[h.a], p))
  {
    hide Unfolds, Sound, CellAt, Settled;
    HearingRaises(h, past, steps, w, first, p);
    SameNodes(past, steps, w, first, h.done);
    SameNodes(past, steps, w, first, k);
    ClimbsBetween(past, steps, w, first, h.done, k);
    CellsAreTotallyOrdered(c, CellAt(past[h.read + 1].nodes[h.b], p), CellAt(past[h.done].nodes[h.a], p));
    CellsAreTotallyOrdered(c, CellAt(past[h.done].nodes[h.a], p), CellAt(past[k].nodes[h.a], p));
  }

  ghost predicate AllHeard(hs: seq<Hearing>, n: nat, k: nat) {
    forall i, c :: 0 <= i < n && 0 <= c < n ==> c in Word(hs, i, k)
  }

  /** From wherever a run has got to, once users leave the files alone: in any continuation at all, mixed
      up as its messages may be, in which word of every node gets round to every other, all nodes come to
      hold the join of all there was, and nothing is left to adopt or to repair. */
  lemma HearingAllConverges(start: Swarm, before: seq<Step>, past: seq<Swarm>, steps: seq<Step>, w: World,
                            hs: seq<Hearing>, now: int)
    requires Unfolds(past, steps, w) && Begins(start, w) && Run(start, before, past[0], w)
    requires past[|steps|].edits == past[0].edits
    requires forall m :: 0 <= m < |hs| ==> Happens(hs[m], past, steps, w)
    requires AllHeard(hs, |start.nodes|, |steps|)
    ensures var last := past[|steps|];
            Converged(last.nodes, Source(start.nodes, last.edits)) && Quiet(last.nodes, now)
  {
    hide Enabled, After, CellAt, Run, Begins, Settled, Ceiling, Top, Happens, Original, Claim, WellSaid, Upheld, Timely, Quiet;
    var first, last := start.nodes, past[|steps|];
    var src := Source(first, last.edits);
    StartIsSound(start, w);
    RunsClimb(start, before, past[0], w, first);
    StaysSound(past, steps, w, first, |steps|);
    forall i, p | 0 <= i < |last.nodes|
      ensures CellAt(last.nodes[i], p) == Ceiling(src, p)
    {
      OriginalsAreBelow(src, p, CellAt(last.nodes[i], p));
      JoinIsConserved(start, before, past[0], w, p);
      TopIsGreatest(past[0].nodes, p);
      CellsAreTotallyOrdered(CellAt(last.nodes[i], p), Ceiling(src, p), Nothing);
      if !Ceiling(src, p).Nothing? {
        var c: nat :| c < |first| && CellAt(past[0].nodes[c], p) == Ceiling(src, p);
        assert c in Word(hs, i, |steps|);
        WordArrives(hs, past, steps, w, first, i, |steps|, c, p);
      }
    }
    forall i | 0 <= i < |last.nodes|
      ensures Tidy(View(last.nodes[i]))
    {
      SettledIsTidy(last.nodes[i], w.fileOf);
    }
    EqualMeansQuiet(last.nodes, src, now);
  }

  // ---- If everyone hears from everyone ----

  lemma {:induction false} WordOf(hs: seq<Hearing>, m: nat, i: nat, k: nat)
    requires m < |hs| && hs[m].a == i && hs[m].done <= k
    ensures hs[m].b in Word(hs, i, k)
    decreases |hs|
  {
    if m == |hs| - 1 {
      WordOfSelf(hs[..m], hs[m].b, hs[m].read + 1);
    } else {
      WordOf(hs[..|hs| - 1], m, i, k);
    }
  }

  lemma {:induction false} WordOfSelf(hs: seq<Hearing>, i: nat, k: nat)
    ensures i in Word(hs, i, k)
    decreases |hs|
  {
    if |hs| > 0 {
      WordOfSelf(hs[..|hs| - 1], i, k);
    }
  }

  ghost predicate Hears(hs: seq<Hearing>, a: nat, b: nat, k: nat) {
    exists m :: 0 <= m < |hs| && hs[m].a == a && hs[m].b == b && hs[m].done <= k
  }

  /** It is enough that every node hears from every other once, in whatever order. */
  lemma EveryPairIsEnough(hs: seq<Hearing>, n: nat, k: nat)
    requires forall a, b :: 0 <= a < n && 0 <= b < n && a != b ==> Hears(hs, a, b, k)
    ensures AllHeard(hs, n, k)
  {
    forall i, c | 0 <= i < n && 0 <= c < n
      ensures c in Word(hs, i, k)
    {
      if i == c {
        WordOfSelf(hs, i, k);
      } else {
        assert Hears(hs, i, c, k);
        var m :| 0 <= m < |hs| && hs[m].a == i && hs[m].b == c && hs[m].done <= k;
        WordOf(hs, m, i, k);
      }
    }
  }
}
