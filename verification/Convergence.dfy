/** From wherever a run has got to, the nodes can still reach agreement, with the steps the protocol
    itself offers. */
module Convergence {
  import opened Paths
  import opened Decimal
  import opened Wire
  import opened RootHash
  import opened Reconcile
  import opened Lattice
  import opened Node
  import opened Settle
  import opened Exchange
  import opened Swarm
  import Cadence
  import Ladder
  import Repairs

  // ---- Runs put together ----

  lemma {:induction false} RunAppend(s: Swarm, a: seq<Step>, t: Swarm, b: seq<Step>, u: Swarm, w: World)
    requires Run(s, a, t, w) && Run(t, b, u, w)
    ensures Run(s, a + b, u, w)
    decreases |a|
  {
    hide After, Enabled;
    if |a| == 0 {
      assert a + b == b;
    } else {
      RunAppend(After(s, a[0], w), a[1..], t, b, u, w);
      assert (a + b)[1..] == a[1..] + b;
    }
  }

  lemma OneStep(s: Swarm, step: Step, w: World)
    requires Enabled(s, step, w)
    ensures Run(s, [step], After(s, step, w), w)
  {
    hide After, Enabled;
    assert [step][1..] == [];
  }

  /** What each node's files are announced with when they are read off its disk. */
  type OffDisk = nat -> Path -> Announcement

  ghost predicate Faithful(offDisk: OffDisk, fileOf: Hash -> Path, src: Source) {
    forall i: nat, p :: p in PathsNamed(src) ==> fileOf(offDisk(i)(p).content) == p
  }

  /** Every repair rebuilt along the way is rebuilt from what is on the disk. */
  ghost predicate Rebuilds(steps: seq<Step>, offDisk: OffDisk) {
    forall k :: 0 <= k < |steps| && steps[k].Publish? ==> steps[k].offDisk == offDisk(steps[k].node)
  }

  ghost predicate InPlace(s: Swarm, w: World) {
    |s.nodes| == |s.clocks| == |w.names| && forall i :: 0 <= i < |s.clocks| ==> Timely(s.clocks[i])
  }

  // ---- One node asks another ----

  /** A node as it was but for what it has on record about its peers. */
  ghost predicate Peered(n: State, after: State) {
    after == n.(peers := after.peers)
  }

  lemma DrawOne(peers: map<Bytes, Heard>, root: Bytes) returns (asked: Option<Bytes>)
    ensures Drawn(peers, root, asked)
  {
    if e :| e in peers && peers[e].root != root {
      asked := Some(e);
    } else {
      asked := None;
    }
  }

  /** A minute after the present moment a round is due, whatever the node is about. */
  lemma MinuteIsDue(clock: Clock, settled: bool)
    requires Timely(clock)
    ensures Cadence.StateDue(clock.rounds, Cadence.Tick(clock.now + Cadence.CEILING, false, settled))
  {
  }

  /** A round says where the node stands. */
  lemma SaysWhereItStands(s: Swarm, j: nat, w: World) returns (step: Step, t: Swarm)
    requires InPlace(s, w) && j < |s.nodes|
    ensures Enabled(s, step, w) && t == After(s, step, w) && step.GoRound? && InPlace(t, w) && t.edits == s.edits
    ensures var n := s.nodes[j];
            && t.nodes == s.nodes[j := t.nodes[j]] && Peered(n, t.nodes[j])
            && Standing(Root(w.sha, n.former, n.graves), w.names[j]) in t.sent
  {
    hide Root, Encoded, Drawn;
    var n, now := s.nodes[j], s.clocks[j].now + Cadence.CEILING;
    var asked := DrawOne(Speaking(n.peers, now), Root(w.sha, n.former, n.graves));
    MinuteIsDue(s.clocks[j], true);
    step := GoRound(j, now, true, asked);
    t := After(s, step, w);
  }

  lemma HearsOf(s: Swarm, i: nat, root: Bytes, endpoint: Bytes, w: World) returns (step: Step, t: Swarm)
    requires InPlace(s, w) && i < |s.nodes| && Standing(root, endpoint) in s.sent && endpoint != w.names[i]
    ensures Enabled(s, step, w) && t == After(s, step, w) && step.Hear? && InPlace(t, w) && t.edits == s.edits
    ensures var n := s.nodes[i];
            && t.nodes == s.nodes[i := n.(peers := n.peers[endpoint := Heard(root, s.clocks[i].now)])]
            && t.clocks == s.clocks
  {
    step := Hear(i, Standing(root, endpoint), s.clocks[i].now);
    t := After(s, step, w);
  }

  /** A peer heard a minute before to stand elsewhere may still be drawn. */
  lemma Asks(s: Swarm, i: nat, root: Bytes, endpoint: Bytes, w: World) returns (step: Step, t: Swarm)
    requires InPlace(s, w) && i < |s.nodes|
    requires var n := s.nodes[i];
      && endpoint in n.peers && n.peers[endpoint] == Heard(root, s.clocks[i].now)
      && root != Root(w.sha, n.former, n.graves)
    ensures Enabled(s, step, w) && t == After(s, step, w) && step.GoRound? && InPlace(t, w) && t.edits == s.edits
    ensures var n := s.nodes[i];
            && t.nodes == s.nodes[i := t.nodes[i]] && Peered(n, t.nodes[i])
            && Digest(endpoint, Encoded(n.former), Encoded(n.graves)) in t.sent
  {
    hide Root, Encoded;
    MinuteIsDue(s.clocks[i], true);
    step := GoRound(i, s.clocks[i].now + Cadence.CEILING, true, Some(endpoint));
    t := After(s, step, w);
  }

  lemma Reads(s: Swarm, j: nat, d: Packet, wall: int, w: World) returns (step: Step, t: Swarm)
    requires InPlace(s, w) && j < |s.nodes| && d in s.sent && d.Digest? && d.target == w.names[j]
    ensures Enabled(s, step, w) && t == After(s, step, w) && step.Read? && InPlace(t, w) && t.edits == s.edits
    ensures t.nodes == s.nodes[j := DigestRead(s.nodes[j], d.held, d.graves, wall, s.clocks[j].now)]
  {
    hide DigestRead;
    step := Read(j, d, wall, s.clocks[j].now);
    t := After(s, step, w);
  }

  /** One node says where it stands, the other hears it, stands elsewhere and asks it in its next round,
      and the digest is read. */
  lemma AskAndRead(s: Swarm, i: nat, j: nat, wall: int, w: World)
    returns (steps: seq<Step>, t: Swarm, a: State, b: State, now: int)
    requires InPlace(s, w) && i < |s.nodes| && j < |s.nodes| && w.names[i] != w.names[j]
    requires Root(w.sha, s.nodes[i].former, s.nodes[i].graves) != Root(w.sha, s.nodes[j].former, s.nodes[j].graves)
    ensures Run(s, steps, t, w) && InPlace(t, w) && t.edits == s.edits
    ensures forall k :: 0 <= k < |steps| ==> !steps[k].Publish?
    ensures Peered(s.nodes[i], a) && Peered(s.nodes[j], b)
    ensures t.nodes == s.nodes[i := a][j := Asked(b, a, wall, now)]
  {
    hide After, Enabled, Run, DigestRead, Root, Encoded, Timely;
    var root := Root(w.sha, s.nodes[j].former, s.nodes[j].graves);
    var say, said := SaysWhereItStands(s, j, w);
    b := said.nodes[j];
    var hear, heard := HearsOf(said, i, root, w.names[j], w);
    var ask, asked := Asks(heard, i, root, w.names[j], w);
    a := asked.nodes[i];
    var d := Digest(w.names[j], Encoded(a.former), Encoded(a.graves));
    now := asked.clocks[j].now;
    var read;
    read, t := Reads(asked, j, d, wall, w);
    OneStep(s, say, w);
    OneStep(said, hear, w);
    OneStep(heard, ask, w);
    OneStep(asked, read, w);
    RunAppend(s, [say], said, [hear], heard, w);
    RunAppend(s, [say] + [hear], heard, [ask], asked, w);
    RunAppend(s, [say] + [hear] + [ask], asked, [read], t, w);
    steps := [say] + [hear] + [ask] + [read];
  }

  // ---- A repair gets out ----

  /** Nothing happened but that the `j`-th node waits with other repairs, that time went by for it and
      that more is on the wire. */
  ghost predicate OnlyPublished(s: Swarm, t: Swarm, j: nat) {
    && j < |s.nodes| == |t.nodes| && s.sent <= t.sent && t.edits == s.edits
    && t.nodes == s.nodes[j := s.nodes[j].(pending := t.nodes[j].pending)]
  }

  /** One late call, at a moment the clock has yet to reach: a listed pending path goes out, or waits
      among fewer. */
  lemma CallHandsOut(n: State, p: Path, clock: int, offDisk: Path -> Announcement) returns (now: int)
    requires p in n.pending && p in n.former
    ensures clock <= now
    ensures var after := Repairs.Published(n.pending, n.former.Keys, n.announcements.Keys, now);
            var creates := RepairsSent(n, PublishRound(n, now).sent, offDisk);
            (p in after && |after| < |n.pending|)
            || exists what :: Repair(what, n.former[p], p) in creates
  {
    var last := Ladder.LatestExists(n.pending.Keys, n.pending);
    now := Ladder.Max(clock, n.pending[last]);
    var sent, after := Repairs.NoGapIsLost(n.pending, n.former.Keys, n.announcements.Keys, now);
    if p in after {
      Repairs.LateCall(n.pending, n.former.Keys, n.announcements.Keys, now);
      Repairs.Subset(Repairs.MissSet(n.pending, n.former.Keys, n.announcements.Keys), n.pending.Keys);
    } else {
      var s := if p in n.announcements then Repairs.Cached(p) else Repairs.Rebuilt(p);
      assert s in sent;
      InCreates(n, sent, offDisk, s);
    }
  }

  lemma InCreates(n: State, sent: seq<Repairs.Answer>, offDisk: Path -> Announcement, s: Repairs.Answer)
    requires s in sent && s.path in n.former
    ensures exists what :: Repair(what, n.former[s.path], s.path) in RepairsSent(n, sent, offDisk)
  {
    var what := if s.Cached? && s.path in n.announcements then n.announcements[s.path] else offDisk(s.path);
    assert Repair(what, n.former[s.path], s.path) in RepairsSent(n, sent, offDisk);
  }

  lemma PublishStep(s: Swarm, j: nat, now: int, offDisk: OffDisk, w: World, src: Source)
    requires InPlace(s, w) && j < |s.nodes| && s.clocks[j].now <= now
    requires Faithful(offDisk, w.fileOf, src) && s.nodes[j].former.Keys <= PathsNamed(src)
    ensures var step := Publish(j, now, offDisk(j));
            var n := s.nodes[j];
            && Enabled(s, step, w)
            && var t := After(s, step, w);
               && OnlyPublished(s, t, j) && InPlace(t, w)
               && t.nodes[j] == n.(pending := Repairs.Published(n.pending, n.former.Keys, n.announcements.Keys, now))
               && RepairsSent(n, PublishRound(n, now).sent, offDisk(j)) <= t.sent
  {
    hide RepairsSent, PublishRound, Repairs.Published, PathsNamed;
  }

  /** A pending repair of a listed path gets out in the end. */
  lemma RepairGoesOut(s: Swarm, j: nat, p: Path, offDisk: OffDisk, w: World, src: Source)
    returns (steps: seq<Step>, t: Swarm, what: Announcement)
    requires InPlace(s, w) && j < |s.nodes|
    requires Faithful(offDisk, w.fileOf, src) && s.nodes[j].former.Keys <= PathsNamed(src)
    requires p in s.nodes[j].pending && p in s.nodes[j].former
    ensures Run(s, steps, t, w) && OnlyPublished(s, t, j) && InPlace(t, w) && Rebuilds(steps, offDisk)
    ensures Repair(what, s.nodes[j].former[p], p) in t.sent
    decreases |s.nodes[j].pending|
  {
    hide RepairsSent, PublishRound, Repairs.Published, After, Enabled, Faithful, Timely, PathsNamed;
    var n := s.nodes[j];
    var now := CallHandsOut(n, p, s.clocks[j].now, offDisk(j));
    var step := Publish(j, now, offDisk(j));
    PublishStep(s, j, now, offDisk, w, src);
    OneStep(s, step, w);
    var next := After(s, step, w);
    if what' :| Repair(what', n.former[p], p) in RepairsSent(n, PublishRound(n, now).sent, offDisk(j)) {
      steps, t, what := [step], next, what';
    } else {
      var rest;
      rest, t, what := RepairGoesOut(next, j, p, offDisk, w, src);
      steps := [step] + rest;
      RunAppend(s, [step], next, rest, t, w);
    }
  }

  // ---- What one node knows reaches another ----

  lemma ReaderArms(a: State, b: State, wall: int, now: int, p: Path, fileOf: Hash -> Path)
    requires Settled(a, fileOf) && Settled(b, fileOf) && Fresh(a.graves, wall)
    requires CellAt(b, p).File? && Below(CellAt(a, p), CellAt(b, p))
    ensures var b' := Asked(b, a, wall, now);
            p in b'.pending && p in b'.former && b'.former[p] == b.former[p]
  {
    hide Encoded, Decoded, Adoptable, Ladder.Arm;
    RoundTrip(a.former);
    RoundTrip(a.graves);
    ReaderAdopts(a, b, wall, now, fileOf);
    AdoptionIsJoin(View(b), a.graves, wall, p);
    GapsAreStrictlyAbove(View(b), View(a), wall, p);
    GraveOrNot(a, p);
    var adopted := Adopt(b, a.graves, wall);
    assert p in Gaps(adopted.former, adopted.graves, a.former);
    Ladder.ArmKeeps(adopted.pending, Gaps(adopted.former, adopted.graves, a.former), now);
  }

  lemma PeeredCells(n: State, after: State, p: Path, fileOf: Hash -> Path)
    requires Settled(n, fileOf) && Peered(n, after)
    ensures Settled(after, fileOf) && CellAt(after, p) == CellAt(n, p)
    ensures after.graves == n.graves && after.former == n.former
  {
  }

  /** Two nodes that could ask each other: settled, named apart, and with different root hashes. */
  ghost predicate Differing(s: Swarm, i: nat, j: nat, w: World) {
    && InPlace(s, w) && i < |s.nodes| && j < |s.nodes| && i != j && w.names[i] != w.names[j]
    && Settled(s.nodes[i], w.fileOf) && Settled(s.nodes[j], w.fileOf)
    && Root(w.sha, s.nodes[i].former, s.nodes[i].graves) != Root(w.sha, s.nodes[j].former, s.nodes[j].graves)
  }

  /** A node whose cell is below a deletion another remembers: one digest raises it. */
  lemma DeletionTravels(s: Swarm, i: nat, j: nat, p: Path, wall: int, w: World) returns (steps: seq<Step>, t: Swarm)
    requires Differing(s, j, i, w) && Fresh(s.nodes[j].graves, wall)
    requires CellAt(s.nodes[j], p).Grave? && Below(CellAt(s.nodes[i], p), CellAt(s.nodes[j], p))
    ensures Run(s, steps, t, w) && |t.nodes| == |s.nodes| && t.edits == s.edits
    ensures forall k :: 0 <= k < |steps| ==> !steps[k].Publish?
    ensures Below(CellAt(s.nodes[i], p), CellAt(t.nodes[i], p))
  {
    hide Asked, Run, Settled, Root;
    var a, b, now;
    steps, t, a, b, now := AskAndRead(s, j, i, wall, w);
    PeeredCells(s.nodes[j], a, p, w.fileOf);
    PeeredCells(s.nodes[i], b, p, w.fileOf);
    ReaderAdopts(a, b, wall, now, w.fileOf);
    SettledIsTidy(b, w.fileOf);
    AdoptionIsJoin(View(b), a.graves, wall, p);
  }

  lemma DeliverRaises(n: State, what: Announcement, origin: Ticks, p: Path, at: Ticks, fileOf: Hash -> Path)
    requires Settled(n, fileOf) && fileOf(what.content) == p
    ensures CellAt(Delivered(n, what, origin, p, at, at), p) == Join(CellAt(n, p), File(origin))
  {
    hide Delivered;
    DeliveryIsReception(n, what, origin, p, at, at, fileOf);
    ReceptionIsJoin(View(n), p, origin, p);
  }

  /** A delivery raises a node below what it brings. */
  lemma DeliveryTravels(s: Swarm, i: nat, m: Packet, at: Ticks, w: World) returns (step: Step, t: Swarm)
    requires InPlace(s, w) && i < |s.nodes| && Settled(s.nodes[i], w.fileOf)
    requires m in s.sent && m.Repair? && WellSaid(m, w.fileOf)
    ensures Enabled(s, step, w) && t == After(s, step, w) && !step.Publish?
    ensures |t.nodes| == |s.nodes| && t.edits == s.edits
    ensures CellAt(t.nodes[i], m.path) == Join(CellAt(s.nodes[i], m.path), File(m.origin))
  {
    hide Delivered, CellAt;
    step := Deliver(i, m, at, at);
    t := After(s, step, w);
    DeliverRaises(s.nodes[i], m.what, m.origin, m.path, at, w.fileOf);
  }

  /** A node whose cell is below a file another holds: a digest, as many calls as it takes for the
      repair to get out, and its delivery raise it. */
  lemma FileTravels(s: Swarm, i: nat, j: nat, p: Path, wall: int, at: Ticks, offDisk: OffDisk, w: World, first: seq<State>)
    returns (steps: seq<Step>, t: Swarm)
    requires Sound(s, first, w) && Differing(s, i, j, w) && Fresh(s.nodes[i].graves, wall)
    requires Faithful(offDisk, w.fileOf, Source(first, s.edits))
    requires CellAt(s.nodes[j], p).File? && Below(CellAt(s.nodes[i], p), CellAt(s.nodes[j], p))
    ensures Run(s, steps, t, w) && |t.nodes| == |s.nodes| && t.edits == s.edits && Rebuilds(steps, offDisk)
    ensures Below(CellAt(s.nodes[i], p), CellAt(t.nodes[i], p))
  {
    hide Asked, Run, Settled, After, Enabled, Root, CellAt, Faithful, Original, Claim, Upheld, Timely, PathsNamed;
    var src := Source(first, s.edits);
    var asking, read, a, b, now := AskAndRead(s, i, j, wall, w);
    PeeredCells(s.nodes[i], a, p, w.fileOf);
    PeeredCells(s.nodes[j], b, p, w.fileOf);
    FileCell(b, p);
    ReaderArms(a, b, wall, now, p, w.fileOf);
    RunsClimb(s, asking, read, w, first);
    ListedIsNamed(read, j, w, first);
    var calling, sent, what := RepairGoesOut(read, j, p, offDisk, w, src);
    RunAppend(s, asking, read, calling, sent, w);
    RunsClimb(s, asking + calling, sent, w, first);
    var m := Repair(what, b.former[p], p);
    assert sent.nodes[i] == a;
    var deliver;
    deliver, t := DeliveryTravels(sent, i, m, at, w);
    OneStep(sent, deliver, w);
    RunAppend(s, asking + calling, sent, [deliver], t, w);
    steps := asking + calling + [deliver];
  }

  /** Every listed path was listed at the start or written since. */
  lemma ListedIsNamed(s: Swarm, i: nat, w: World, first: seq<State>)
    requires Sound(s, first, w) && i < |s.nodes|
    ensures s.nodes[i].former.Keys <= PathsNamed(Source(first, s.edits))
  {
    hide PathsNamed, Values, Original, Claim, WellSaid, Upheld, Timely;
    var src := Source(first, s.edits);
    forall p | p in s.nodes[i].former
      ensures p in PathsNamed(src)
    {
      OriginalsAreValues(src, p, CellAt(s.nodes[i], p));
    }
  }

  lemma FileCell(n: State, p: Path)
    requires CellAt(n, p).File?
    ensures p in n.former && CellAt(n, p) == File(n.former[p])
  {
  }

  // ---- From any reachable state ----

  /** Nothing that was deleted at the start or since has expired. */
  ghost predicate SourceFresh(src: Source, wall: int) {
    && AllFresh(src.first, wall)
    && forall e :: e in src.edits && e.value.Grave? ==> !Expired(e.value.at, wall)
  }

  lemma OriginalsAreFresh(s: Swarm, first: seq<State>, wall: int, w: World)
    requires Sound(s, first, w) && SourceFresh(Source(first, s.edits), wall)
    ensures AllFresh(s.nodes, wall)
  {
    forall i, p | 0 <= i < |s.nodes| && p in s.nodes[i].graves
      ensures !Expired(s.nodes[i].graves[p], wall)
    {
      SettledIsTidy(s.nodes[i], w.fileOf);
      var c := CellAt(s.nodes[i], p);
      assert c == Grave(s.nodes[i].graves[p]);
      assert Original(Source(first, s.edits), p, c);
      if Edit(p, c) in s.edits {
        assert Edit(p, c).value.Grave?;
      } else {
        var k :| 0 <= k < |first| && CellAt(first[k], p) == c;
        assert Fresh(first[k].graves, wall);
      }
    }
  }

  /** A tree made of what the nodes started with and what users did. */
  ghost predicate MadeOf(src: Source, t: Tree) {
    Tidy(t) && forall p :: Original(src, p, CellOf(t, p))
  }

  /** No two of those trees collide. */
  ghost predicate NoCollisions(sha: Bytes -> Bytes, src: Source) {
    && FixedWidth(sha)
    && forall a, b :: MadeOf(src, a) && MadeOf(src, b) ==>
         NoCollisionBetween(sha, a.held, a.graves, b.held, b.graves)
  }

  lemma DifferentNodesDiffer(s: Swarm, i: nat, j: nat, p: Path, w: World, first: seq<State>)
    requires Sound(s, first, w) && NoCollisions(w.sha, Source(first, s.edits))
    requires i < |s.nodes| && j < |s.nodes| && CellAt(s.nodes[i], p) != CellAt(s.nodes[j], p)
    requires w.names[i] != w.names[j]
    ensures Differing(s, i, j, w)
  {
    hide Root, WellSaid, Claim, FixedWidth, NoCollisionBetween, Upheld, Timely, Original;
    var src, a, b := Source(first, s.edits), View(s.nodes[i]), View(s.nodes[j]);
    SettledIsTidy(s.nodes[i], w.fileOf);
    SettledIsTidy(s.nodes[j], w.fileOf);
    forall q
      ensures Original(src, q, CellOf(a, q)) && Original(src, q, CellOf(b, q))
    {
      assert Original(src, q, CellAt(s.nodes[i], q)) && Original(src, q, CellAt(s.nodes[j], q));
    }
    assert MadeOf(src, a) && MadeOf(src, b);
    RootSeparates(w.sha, a.held, a.graves, b.held, b.graves);
  }

  ghost predicate NamedApart(names: seq<Bytes>) {
    forall i, j :: 0 <= i < j < |names| ==> names[i] != names[j]
  }

  /** What the continuation rests on: nothing has expired, no hashes collide, nodes are named apart and
      files read off disk are announced as themselves. */
  ghost predicate Fair(src: Source, wall: int, offDisk: OffDisk, w: World) {
    SourceFresh(src, wall) && NoCollisions(w.sha, src) && NamedApart(w.names) && Faithful(offDisk, w.fileOf, src)
  }

  /** Where two nodes differ, the run can go on to raise the lower one. */
  lemma CanMove(s: Swarm, first: seq<State>, wall: int, at: Ticks, offDisk: OffDisk, w: World, i: nat, j: nat, p: Path)
    returns (steps: seq<Step>, t: Swarm)
    requires Sound(s, first, w) && Fair(Source(first, s.edits), wall, offDisk, w)
    requires i < |s.nodes| && j < |s.nodes| && Below(CellAt(s.nodes[i], p), CellAt(s.nodes[j], p))
    ensures Run(s, steps, t, w) && Sound(t, first, w) && t.edits == s.edits && Rebuilds(steps, offDisk)
    ensures |Room(t.nodes, Source(first, s.edits))| < |Room(s.nodes, Source(first, s.edits))|
  {
    hide CellAt, Settled, Fresh, Run, Room, Original, WellSaid, Claim, Climbed, NoCollisions, Faithful, Differing,
         SourceFresh, Upheld, Timely;
    OriginalsAreFresh(s, first, wall, w);
    if CellAt(s.nodes[j], p).Grave? {
      DifferentNodesDiffer(s, j, i, p, w, first);
      steps, t := DeletionTravels(s, i, j, p, wall, w);
    } else {
      DifferentNodesDiffer(s, i, j, p, w, first);
      steps, t := FileTravels(s, i, j, p, wall, at, offDisk, w, first);
    }
    RunsClimb(s, steps, t, w, first);
    MovingTakesRoom(s, t, Source(first, s.edits), i, p);
  }

  ghost predicate Agreed(nodes: seq<State>) {
    forall i, j, p :: 0 <= i < |nodes| && 0 <= j < |nodes| ==> CellAt(nodes[i], p) == CellAt(nodes[j], p)
  }

  lemma CanAgree(s: Swarm, first: seq<State>, wall: int, at: Ticks, offDisk: OffDisk, w: World)
    returns (steps: seq<Step>, t: Swarm)
    requires Sound(s, first, w) && Fair(Source(first, s.edits), wall, offDisk, w)
    ensures Run(s, steps, t, w) && Agreed(t.nodes) && t.edits == s.edits && Rebuilds(steps, offDisk)
    decreases |Room(s.nodes, Source(first, s.edits))|
  {
    hide CellAt, Run, Sound, Room, Fair;
    if Agreed(s.nodes) {
      steps, t := [], s;
      EmptyRun(s, w);
    } else {
      var i, j, p :| 0 <= i < |s.nodes| && 0 <= j < |s.nodes|
                     && CellAt(s.nodes[i], p) != CellAt(s.nodes[j], p);
      CellsAreTotallyOrdered(CellAt(s.nodes[i], p), CellAt(s.nodes[j], p), Nothing);
      var head, next;
      if AtMost(CellAt(s.nodes[i], p), CellAt(s.nodes[j], p)) {
        head, next := CanMove(s, first, wall, at, offDisk, w, i, j, p);
      } else {
        head, next := CanMove(s, first, wall, at, offDisk, w, j, i, p);
      }
      var rest;
      rest, t := CanAgree(next, first, wall, at, offDisk, w);
      steps := head + rest;
      RunAppend(s, head, next, rest, t, w);
    }
  }

  lemma EmptyRun(s: Swarm, w: World)
    ensures Run(s, [], s, w)
  {
  }

  lemma AgreementIsTop(nodes: seq<State>, i: nat, p: Path)
    requires i < |nodes| && Agreed(nodes)
    ensures CellAt(nodes[i], p) == Top(nodes, p)
  {
    hide CellAt, Top;
    TopIsGreatest(nodes, p);
    if !Top(nodes, p).Nothing? {
      var k :| 0 <= k < |nodes| && CellAt(nodes[k], p) == Top(nodes, p);
    }
  }

  /** However a run from settled nodes went, whatever it lost, repeated or reordered and whatever users
      did meanwhile: as long as no tombstone has expired, it can be continued to a state in which every
      node holds the join of all there was. In the continuation clocks only go forward, rounds go out
      when they are due, only peers on record with another root hash are asked, and files are rebuilt
      from what is on the disks. No state is a dead end. */
  lemma ConvergenceStaysReachable(start: Swarm, before: seq<Step>, s: Swarm, w: World,
                                  wall: int, at: Ticks, offDisk: OffDisk)
    returns (steps: seq<Step>, t: Swarm)
    requires Begins(start, w) && Run(start, before, s, w)
    requires Fair(Source(start.nodes, s.edits), wall, offDisk, w)
    ensures Run(s, steps, t, w) && t.edits == s.edits && Rebuilds(steps, offDisk)
    ensures Converged(t.nodes, Source(start.nodes, s.edits))
  {
    hide CellAt, Top, Ceiling, Run, Sound, Begins, Agreed, Fair, Rebuilds;
    StartIsSound(start, w);
    RunsClimb(start, before, s, w, start.nodes);
    steps, t := CanAgree(s, start.nodes, wall, at, offDisk, w);
    RunAppend(start, before, s, steps, t, w);
    forall i, p | 0 <= i < |t.nodes|
      ensures CellAt(t.nodes[i], p) == Ceiling(Source(start.nodes, s.edits), p)
    {
      JoinIsConserved(start, before + steps, t, w, p);
      AgreementIsTop(t.nodes, i, p);
    }
  }
}
