/** Any number of nodes repairing each other over a network that loses, repeats and reorders, while
    their users write and delete. */
module Swarm {
  import opened Paths
  import opened Decimal
  import opened Wire
  import opened RootHash
  import opened Reconcile
  import opened Lattice
  import opened Node
  import opened Settle
  import opened Exchange
  import Cadence
  import Files
  import LocalChanges
  import SyncLoop
  import Repairs
  import Ladder

  /** What is on the wire. A message once sent may be delivered at any later time, any number of
      times, or never. */
  datatype Packet =
    | Standing(root: Bytes, endpoint: Bytes)
    | Repair(what: Announcement, origin: Ticks, path: Path)
    | Removal(path: Path, at: Ticks)
    | Digest(target: Bytes, held: Bytes, graves: Bytes)

  /** What a run does not change: the endpoint of each node, the digest function, and the file each
      info hash is taken over. */
  datatype World = World(names: seq<Bytes>, sha: Bytes -> Bytes, fileOf: Hash -> Path)

  /** What a node's steady clock last read, and the two moments its rounds go by. */
  datatype Clock = Clock(now: int, rounds: Cadence.Clocks)

  /** A value a user gave a path. */
  datatype Edit = Edit(path: Path, value: Cell)

  /** The nodes and their clocks, all that was ever sent, and all that users did. */
  datatype Swarm = Swarm(nodes: seq<State>, clocks: seq<Clock>, sent: set<Packet>, edits: seq<Edit>)

  datatype Step =
    // the loop
    | GoRound(node: nat, now: int, settled: bool, asked: Option<Bytes>)
    | Publish(node: nat, now: int, offDisk: Path -> Announcement)
    | Relist(node: nat, noticed: Ticks, wall: int, now: int)
    // what it receives
    | Hear(node: nat, said: Packet, now: int)
    | Read(node: nat, digest: Packet, wall: int, now: int)
    | Deliver(node: nat, repair: Packet, written: Ticks, flushed: Ticks)
    | Obey(node: nat, removal: Packet, noticed: Ticks, wall: int, now: int)
    // its user, up to the listing that finds it
    | Write(node: nat, path: Path, at: Ticks, what: Announcement, noticed: Ticks, wall: int, now: int)
    | Delete(node: nat, path: Path, noticed: Ticks, deleted: Ticks, wall: int, now: int)

  /** A peer that may be drawn, or nobody if there is none: what `Pick` promises. */
  ghost predicate Drawn(peers: map<Bytes, Heard>, root: Bytes, asked: Option<Bytes>) {
    match asked
    case Some(e) => e in peers && peers[e].root != root
    case None => forall e :: e in peers ==> peers[e].root == root
  }

  function ClockAfter(clock: Clock, step: Step): (later: Clock) {
    match step
    case GoRound(_, now, _, _) => Clock(now, clock.rounds.(lastState := now))
    case Publish(_, now, _) => clock.(now := now)
    case Relist(_, _, _, now) => Clock(now, clock.rounds.(lastChange := now))
    case Hear(_, _, now) => clock.(now := now)
    case Read(_, _, _, now) => clock.(now := now)
    case Deliver(_, _, _, _) => clock
    case Obey(_, _, _, _, now) => Clock(now, clock.rounds.(lastChange := now))
    case Write(_, _, _, _, _, _, now) => Clock(now, clock.rounds.(lastChange := now))
    case Delete(_, _, _, _, _, now) => Clock(now, clock.rounds.(lastChange := now))
  }

  /** Steady clocks do not go back, and a round goes out when it is due. A file read off disk is
      announced as itself. No tombstone expires in these runs. A user's write or deletion is later
      than what is here and not taken for the write of a transfer. A live deletion is received by
      nodes without a newer file: by them it is taken as a join. */
  ghost predicate Enabled(s: Swarm, step: Step, w: World) {
    && step.node < |s.nodes| == |s.clocks| == |w.names|
    && s.clocks[step.node].now <= ClockAfter(s.clocks[step.node], step).now
    && Allowed(s.nodes[step.node], s.clocks[step.node], step, s.sent, w)
  }

  ghost predicate Allowed(n: State, clock: Clock, step: Step, sent: set<Packet>, w: World)
    requires step.node < |w.names|
  {
    match step
    case GoRound(_, now, settled, asked) =>
      && Cadence.StateDue(clock.rounds, Cadence.Tick(now, false, settled))
      && Drawn(Speaking(n.peers, now), Root(w.sha, n.former, n.graves), asked)
    case Publish(_, _, offDisk) => forall p :: p in n.former ==> w.fileOf(offDisk(p).content) == p
    case Relist(_, _, wall, _) => Fresh(n.graves, wall)
    case Hear(_, m, _) => m in sent && m.Standing?
    case Read(i, d, _, _) => d in sent && d.Digest? && d.target == w.names[i]
    case Deliver(_, r, written, flushed) => r in sent && r.Repair? && written <= flushed
    case Obey(_, m, _, wall, _) =>
      && m in sent && m.Removal? && (m.path in n.disk ==> n.disk[m.path] < m.at)
      && Fresh(n.graves, wall) && !Expired(m.at, wall)
    case Write(_, p, at, what, _, wall, _) =>
      && Below(CellAt(n, p), File(at)) && w.fileOf(what.content) == p
      && (p in n.written ==> n.written[p] != at) && Fresh(n.graves, wall)
    case Delete(_, p, noticed, deleted, wall, _) =>
      && p in n.disk && n.disk[p] < noticed <= deleted
      && Fresh(n.graves, wall) && !Expired(noticed, wall)
  }

  /** The creates one call of `publish_repairs` puts on the wire; `offDisk` is what reading a file
      without an announcement off disk gives. */
  function RepairsSent(n: State, sent: seq<Repairs.Answer>, offDisk: Path -> Announcement): (out: set<Packet>) {
    set s | s in sent && s.path in n.former ::
      Repair(if s.Cached? && s.path in n.announcements then n.announcements[s.path] else offDisk(s.path),
             n.former[s.path], s.path)
  }

  function PublishRound(n: State, now: int): (r: Repairs.Round) {
    Repairs.Rounded(Ladder.Ready(n.pending, now), n.former.Keys, n.announcements.Keys, Repairs.FRESH)
  }

  /** A deletion comes back to the node that announced it. */
  ghost function NodeAfter(n: State, step: Step, name: Bytes): (after: State) {
    match step
    case GoRound(_, now, _, _) => n.(peers := Speaking(n.peers, now))
    case Publish(_, now, _) =>
      n.(pending := Repairs.Published(n.pending, n.former.Keys, n.announcements.Keys, now))
    case Relist(_, noticed, wall, _) => SyncLoop.Relisted(n, noticed, wall)
    case Hear(_, m, now) => if m.Standing? then Receive(n, StateOf(m.root, m.endpoint), name, 0, now) else n
    case Read(_, d, wall, now) => if d.Digest? then DigestRead(n, d.held, d.graves, wall, now) else n
    case Deliver(_, r, written, flushed) =>
      if r.Repair? then Delivered(n, r.what, r.origin, r.path, written, flushed) else n
    case Obey(_, m, noticed, wall, _) =>
      if m.Removal? then SyncLoop.Relisted(Receive(n, RemoveFile(m.path, m.at), name, 0, 0), noticed, wall) else n
    case Write(_, p, at, _, noticed, wall, _) => SyncLoop.Relisted(n.(disk := n.disk[p := at]), noticed, wall)
    case Delete(_, p, noticed, deleted, wall, _) =>
      Receive(SyncLoop.Relisted(n.(disk := n.disk - {p}), noticed, wall), RemoveFile(p, deleted), name, 0, 0)
  }

  ghost function PacketsOf(n: State, step: Step, name: Bytes, sha: Bytes -> Bytes): (out: set<Packet>) {
    match step
    case GoRound(_, _, _, asked) =>
      {Standing(Root(sha, n.former, n.graves), name)}
      + (if asked.Some? then {Digest(asked.value, Encoded(n.former), Encoded(n.graves))} else {})
    case Publish(_, now, offDisk) => RepairsSent(n, PublishRound(n, now).sent, offDisk)
    case Write(_, p, at, what, _, _, _) => {Repair(what, at, p)}
    case Delete(_, p, _, deleted, _, _) => {Removal(p, deleted)}
    case _ => {}
  }

  function EditsOf(step: Step): (es: seq<Edit>) {
    match step
    case Write(_, p, at, _, _, _, _) => [Edit(p, File(at))]
    case Delete(_, p, _, deleted, _, _) => [Edit(p, Grave(deleted))]
    case _ => []
  }

  ghost function After(s: Swarm, step: Step, w: World): (t: Swarm)
    requires Enabled(s, step, w)
  {
    var i := step.node;
    Swarm(s.nodes[i := NodeAfter(s.nodes[i], step, w.names[i])],
          s.clocks[i := ClockAfter(s.clocks[i], step)],
          s.sent + PacketsOf(s.nodes[i], step, w.names[i], w.sha),
          s.edits + EditsOf(step))
  }

  ghost predicate Run(s: Swarm, steps: seq<Step>, t: Swarm, w: World)
    decreases |steps|
  {
    if |steps| == 0 then s == t
    else Enabled(s, steps[0], w) && Run(After(s, steps[0], w), steps[1..], t, w)
  }

  /** The steps are the loop's: a round and a call are one of its rounds, a listing one of its listings, and
      what is received is received as there. */
  lemma StepsAreTheLoops(n: State, step: Step, name: Bytes, now: int, settled: bool, asked: Option<Bytes>,
                         offDisk: Path -> Announcement)
    ensures NodeAfter(NodeAfter(n, GoRound(step.node, now, settled, asked), name), Publish(step.node, now, offDisk), name)
            == SyncLoop.AfterRound(n, true, now)
    ensures NodeAfter(n, Publish(step.node, now, offDisk), name) == SyncLoop.AfterRound(n, false, now)
    ensures step.Relist? ==> NodeAfter(n, step, name) == SyncLoop.Relisted(n, step.noticed, step.wall)
    ensures step.Read? && step.digest.Digest? ==>
      NodeAfter(n, step, name) == Receive(n, DigestOf(step.digest.held, step.digest.graves), name, step.wall, step.now)
    ensures step.Hear? && step.said.Standing? ==>
      forall wall :: NodeAfter(n, step, name)
                     == Receive(n, StateOf(step.said.root, step.said.endpoint), name, wall, step.now)
  {
    hide Repairs.Published, Speaking, SyncLoop.Relisted, DigestRead;
  }

  // ---- Nothing is invented ----

  /** Where values come from: what the nodes started with and what users did since. */
  datatype Source = Source(first: seq<State>, edits: seq<Edit>)

  ghost predicate Original(src: Source, p: Path, c: Cell) {
    c.Nothing? || (exists i :: 0 <= i < |src.first| && CellAt(src.first[i], p) == c) || Edit(p, c) in src.edits
  }

  /** What a message claims about a path. */
  ghost function Claim(m: Packet, p: Path): (c: Cell) {
    match m
    case Standing(_, _) => Nothing
    case Repair(_, origin, path) => if path == p then File(origin) else Nothing
    case Removal(path, at) => if path == p then Grave(at) else Nothing
    case Digest(_, held, graves) => CellOf(Tree(Decoded(held), Decoded(graves)), p)
  }

  ghost predicate WellSaid(m: Packet, fileOf: Hash -> Path) {
    match m
    case Standing(_, _) => true
    case Repair(what, _, path) => fileOf(what.content) == path
    case Removal(_, _) => true
    case Digest(_, held, graves) => Tidy(Tree(Decoded(held), Decoded(graves)))
  }

  /** Some node holds at least what a user did. */
  ghost predicate Upheld(nodes: seq<State>, e: Edit) {
    exists i :: 0 <= i < |nodes| && AtMost(e.value, CellAt(nodes[i], e.path))
  }

  ghost predicate Timely(clock: Clock) {
    clock.rounds.lastState <= clock.now
  }

  ghost predicate Sound(s: Swarm, first: seq<State>, w: World) {
    var src := Source(first, s.edits);
    && |first| == |s.nodes| == |s.clocks| == |w.names|
    && (forall i :: 0 <= i < |s.clocks| ==> Timely(s.clocks[i]))
    && (forall i :: 0 <= i < |s.nodes| ==> Settled(s.nodes[i], w.fileOf))
    && (forall i, p :: 0 <= i < |s.nodes| ==> Original(src, p, CellAt(s.nodes[i], p)))
    && (forall m :: m in s.sent ==> WellSaid(m, w.fileOf))
    && (forall m, p :: m in s.sent ==> Original(src, p, Claim(m, p)))
    && (forall e :: e in s.edits ==> Upheld(s.nodes, e))
  }

  ghost predicate Climbed(s: Swarm, t: Swarm) {
    && |s.nodes| == |t.nodes|
    && forall i, p :: 0 <= i < |s.nodes| ==> AtMost(CellAt(s.nodes[i], p), CellAt(t.nodes[i], p))
  }

  /** What a message makes of one path is one of the two values that meet there, and never the lower of
      them. */
  ghost predicate Meets(before: Cell, claim: Cell, after: Cell) {
    (after == before || after == claim) && AtMost(before, after)
  }

  lemma ReadMeets(n: State, d: Packet, wall: int, now: int, p: Path, fileOf: Hash -> Path)
    requires Settled(n, fileOf) && d.Digest? && WellSaid(d, fileOf)
    ensures var after := DigestRead(n, d.held, d.graves, wall, now);
            Settled(after, fileOf) && Meets(CellAt(n, p), Claim(d, p), CellAt(after, p))
  {
    DigestIsAdoption(n, d.held, d.graves, wall, now, fileOf);
    AdoptionIsJoin(View(n), Decoded(d.graves), wall, p);
  }

  lemma DeliverMeets(n: State, r: Packet, written: Ticks, flushed: Ticks, p: Path, fileOf: Hash -> Path)
    requires Settled(n, fileOf) && r.Repair? && WellSaid(r, fileOf) && written <= flushed
    ensures var after := Delivered(n, r.what, r.origin, r.path, written, flushed);
            Settled(after, fileOf) && Meets(CellAt(n, p), Claim(r, p), CellAt(after, p))
  {
    DeliveryIsReception(n, r.what, r.origin, r.path, written, flushed, fileOf);
    ReceptionIsJoin(View(n), r.path, r.origin, p);
  }

  lemma DigestClaims(n: State, target: Bytes, p: Path, fileOf: Hash -> Path)
    requires Settled(n, fileOf)
    ensures var d := Digest(target, Encoded(n.former), Encoded(n.graves));
            WellSaid(d, fileOf) && Claim(d, p) == CellAt(n, p)
  {
    RoundTrip(n.former);
    RoundTrip(n.graves);
  }

  lemma RepairClaims(n: State, sent: seq<Repairs.Answer>, offDisk: Path -> Announcement, m: Packet, p: Path,
                     fileOf: Hash -> Path)
    requires Settled(n, fileOf) && m in RepairsSent(n, sent, offDisk)
    requires forall q :: q in n.former ==> fileOf(offDisk(q).content) == q
    ensures WellSaid(m, fileOf) && (Claim(m, p) == CellAt(n, p) || Claim(m, p).Nothing?)
  {
  }

  /** What a call puts on the wire: each listed path it answers, under the time listed, with the bytes it
      was last announced with if those are in hand and it is answered from them, and what reading it off
      disk gives otherwise. */
  lemma RepairsSentExactly(n: State, sent: seq<Repairs.Answer>, offDisk: Path -> Announcement, m: Packet)
    ensures m in RepairsSent(n, sent, offDisk) <==>
            m.Repair? && m.path in n.former && m.origin == n.former[m.path]
            && ((Repairs.Cached(m.path) in sent && m.path in n.announcements && m.what == n.announcements[m.path])
                || (Repairs.Cached(m.path) in sent && m.path !in n.announcements && m.what == offDisk(m.path))
                || (Repairs.Rebuilt(m.path) in sent && m.what == offDisk(m.path)))
  {
    if m.Repair? && m.path in n.former && m.origin == n.former[m.path] {
      if Repairs.Cached(m.path) in sent
         && m.what == (if m.path in n.announcements then n.announcements[m.path] else offDisk(m.path)) {
        var s := Repairs.Cached(m.path);
        assert s in sent && s.path in n.former;
      } else if Repairs.Rebuilt(m.path) in sent && m.what == offDisk(m.path) {
        var s := Repairs.Rebuilt(m.path);
        assert s in sent && s.path in n.former;
      }
    }
  }

  /** What a step puts on the wire says what its node holds, or what its user did, or nothing. */
  lemma PacketsClaim(s: Swarm, step: Step, w: World, m: Packet, p: Path)
    requires Enabled(s, step, w) && Settled(s.nodes[step.node], w.fileOf)
    requires m in PacketsOf(s.nodes[step.node], step, w.names[step.node], w.sha)
    ensures WellSaid(m, w.fileOf)
    ensures Claim(m, p) == CellAt(s.nodes[step.node], p) || Claim(m, p).Nothing? || Edit(p, Claim(m, p)) in EditsOf(step)
  {
    hide CellAt, Settled, RepairsSent, PublishRound;
    var n := s.nodes[step.node];
    if step.GoRound? {
      if step.asked.Some? {
        DigestClaims(n, step.asked.value, p, w.fileOf);
      }
    } else if step.Publish? {
      RepairClaims(n, PublishRound(n, step.now).sent, step.offDisk, m, p, w.fileOf);
    }
  }

  // ---- Listings ----

  /** What a listing leaves, given what it makes of the tombstones and that none has expired. */
  lemma ListedAs(n: State, noticed: Ticks, wall: int, graves: TimeMap)
    requires SyncLoop.Changed(n, noticed).1 == graves && Fresh(graves, wall)
    ensures var after := SyncLoop.Relisted(n, noticed, wall);
            after == n.(former := n.disk, written := after.written, graves := graves)
  {
    hide SyncLoop.Changed;
    assert Unexpired(graves, wall) == graves;
  }

  /** Listing a settled node again, nothing having expired, finds nothing to announce and leaves its
      tree as it is. */
  lemma RelistingFindsNothing(n: State, noticed: Ticks, wall: int, fileOf: Hash -> Path)
    requires Settled(n, fileOf) && Fresh(n.graves, wall)
    ensures SyncLoop.Changed(n, noticed) == (Files.Diff(map[], map[], map[]), n.graves)
    ensures var after := SyncLoop.Relisted(n, noticed, wall);
            Settled(after, fileOf) && after == n.(written := after.written)
  {
    NothingChanged(n.disk, n.written, n.graves, noticed);
    hide LocalChanges.Announced;
    ListedAs(n, noticed, wall, n.graves);
  }

  lemma NothingChanged(tree: TimeMap, written: TimeMap, graves: TimeMap, noticed: Ticks)
    ensures LocalChanges.Announced(tree, tree, written, graves, noticed)
            == (Files.Diff(map[], map[], map[]), graves)
  {
    var (diff, after) := LocalChanges.Announced(tree, tree, written, graves, noticed);
    forall p
      ensures p !in diff.removed && p !in diff.created && p !in diff.modified
      ensures p in after <==> p in graves
      ensures p in after ==> after[p] == graves[p]
    {
      LocalChanges.AnnouncedExactly(tree, tree, written, graves, noticed, p);
      LocalChanges.TombstonesExactly(tree, tree, written, graves, noticed, p);
    }
    hide LocalChanges.Announced;
    assert diff.removed == map[] && diff.created == map[] && diff.modified == map[];
    assert after == graves;
  }

  /** A file written later than what is here is all the next listing announces, under its own time, and
      its tombstone goes. */
  lemma WriteIsAnnounced(n: State, p: Path, at: Ticks, noticed: Ticks, fileOf: Hash -> Path)
    requires Settled(n, fileOf) && Below(CellAt(n, p), File(at)) && (p in n.written ==> n.written[p] != at)
    ensures var m := n.(disk := n.disk[p := at]);
            var (diff, graves) := SyncLoop.Changed(m, noticed);
            && graves == n.graves - {p}
            && forall x :: x in LocalChanges.Outbound(diff, m.disk) <==> x == LocalChanges.Create(p, at)
  {
    var m := n.(disk := n.disk[p := at]);
    WriteMarks(n, p, at, noticed, fileOf);
    hide LocalChanges.Announced, LocalChanges.Outbound, Settled, SyncLoop.Changed;
    forall x
      ensures x in LocalChanges.Outbound(SyncLoop.Changed(m, noticed).0, m.disk) <==> x == LocalChanges.Create(p, at)
    {
      WriteSends(n, p, at, noticed, fileOf, x);
    }
  }

  lemma WriteAt(n: State, p: Path, at: Ticks, noticed: Ticks, fileOf: Hash -> Path, q: Path)
    requires Settled(n, fileOf) && Below(CellAt(n, p), File(at)) && (p in n.written ==> n.written[p] != at)
    ensures var m := n.(disk := n.disk[p := at]);
            var (diff, graves) := SyncLoop.Changed(m, noticed);
            && (q in diff.created.Keys + diff.modified.Keys <==> q == p) && q !in diff.removed
            && (q in graves <==> q in n.graves && q != p)
            && (q in graves ==> graves[q] == n.graves[q])
  {
    hide LocalChanges.Announced;
    var m := n.(disk := n.disk[p := at]);
    LocalChanges.AnnouncedExactly(m.former, m.disk, m.written, m.graves, noticed, q);
    LocalChanges.TombstonesExactly(m.former, m.disk, m.written, m.graves, noticed, q);
  }

  lemma WriteMarks(n: State, p: Path, at: Ticks, noticed: Ticks, fileOf: Hash -> Path)
    requires Settled(n, fileOf) && Below(CellAt(n, p), File(at)) && (p in n.written ==> n.written[p] != at)
    ensures SyncLoop.Changed(n.(disk := n.disk[p := at]), noticed).1 == n.graves - {p}
  {
    hide SyncLoop.Changed, Settled, CellAt;
    var graves := SyncLoop.Changed(n.(disk := n.disk[p := at]), noticed).1;
    forall q
      ensures q in graves <==> q in n.graves && q != p
      ensures q in graves ==> graves[q] == n.graves[q]
    {
      WriteAt(n, p, at, noticed, fileOf, q);
    }
  }

  lemma WriteSends(n: State, p: Path, at: Ticks, noticed: Ticks, fileOf: Hash -> Path, x: LocalChanges.Publication)
    requires Settled(n, fileOf) && Below(CellAt(n, p), File(at)) && (p in n.written ==> n.written[p] != at)
    ensures var m := n.(disk := n.disk[p := at]);
            x in LocalChanges.Outbound(SyncLoop.Changed(m, noticed).0, m.disk) <==> x == LocalChanges.Create(p, at)
  {
    hide LocalChanges.Announced, LocalChanges.Outbound, Settled, CellAt;
    var m := n.(disk := n.disk[p := at]);
    LocalChanges.SentExactly(m.former, m.disk, m.written, m.graves, noticed, x);
    WriteAt(n, p, at, noticed, fileOf, x.path);
  }

  lemma WriteTakes(n: State, p: Path, at: Ticks, noticed: Ticks, wall: int, fileOf: Hash -> Path, q: Path)
    requires Settled(n, fileOf) && Below(CellAt(n, p), File(at)) && (p in n.written ==> n.written[p] != at)
    requires Fresh(n.graves, wall)
    ensures var after := SyncLoop.Relisted(n.(disk := n.disk[p := at]), noticed, wall);
            Settled(after, fileOf) && CellAt(after, q) == if q == p then File(at) else CellAt(n, q)
  {
    hide SyncLoop.Changed, SyncLoop.Relisted, CellAt, Settled;
    WriteIsAnnounced(n, p, at, noticed, fileOf);
    var written := n.(disk := n.disk[p := at]);
    assert Fresh(n.graves - {p}, wall);
    ListedAs(written, noticed, wall, n.graves - {p});
    FileIsPut(n, SyncLoop.Relisted(written, noticed, wall), p, at, fileOf, q);
  }

  lemma FileIsPut(n: State, after: State, p: Path, at: Ticks, fileOf: Hash -> Path, q: Path)
    requires Settled(n, fileOf)
    requires after.disk == n.disk[p := at] && after.former == after.disk && after.graves == n.graves - {p}
    requires after.session == n.session && after.announcements == n.announcements
    ensures Settled(after, fileOf) && CellAt(after, q) == if q == p then File(at) else CellAt(n, q)
  {
  }

  lemma FileIsGone(n: State, after: State, p: Path, at: Ticks, fileOf: Hash -> Path, q: Path)
    requires Settled(n, fileOf)
    requires after.disk == n.disk - {p} && after.former == after.disk && after.graves == n.graves[p := at]
    requires after.announcements == n.announcements - {p}
    requires forall t :: t in after.session <==> t in n.session && t.path != p
    ensures Settled(after, fileOf) && CellAt(after, q) == if q == p then Grave(at) else CellAt(n, q)
  {
  }

  /** A deletion is all the next listing announces, and it is remembered at the moment it is noticed. */
  lemma DeletionIsAnnounced(n: State, p: Path, noticed: Ticks, fileOf: Hash -> Path)
    requires Settled(n, fileOf) && p in n.disk
    ensures var m := n.(disk := n.disk - {p});
            var (diff, graves) := SyncLoop.Changed(m, noticed);
            && graves == n.graves[p := noticed]
            && forall x :: x in LocalChanges.Outbound(diff, m.disk) <==> x == LocalChanges.Remove(p)
  {
    var m := n.(disk := n.disk - {p});
    DeletionMarks(n, p, noticed, fileOf);
    hide LocalChanges.Announced, LocalChanges.Outbound, Settled, SyncLoop.Changed;
    forall x
      ensures x in LocalChanges.Outbound(SyncLoop.Changed(m, noticed).0, m.disk) <==> x == LocalChanges.Remove(p)
    {
      DeletionSends(n, p, noticed, fileOf, x);
    }
  }

  lemma DeletionMarks(n: State, p: Path, noticed: Ticks, fileOf: Hash -> Path)
    requires Settled(n, fileOf) && p in n.disk
    ensures SyncLoop.Changed(n.(disk := n.disk - {p}), noticed).1 == n.graves[p := noticed]
  {
    hide SyncLoop.Changed, Settled;
    var graves := SyncLoop.Changed(n.(disk := n.disk - {p}), noticed).1;
    forall q
      ensures q in graves <==> q in n.graves || q == p
      ensures q in graves ==> graves[q] == if q == p then noticed else n.graves[q]
    {
      DeletionAt(n, p, noticed, fileOf, q);
    }
  }

  lemma DeletionSends(n: State, p: Path, noticed: Ticks, fileOf: Hash -> Path, x: LocalChanges.Publication)
    requires Settled(n, fileOf) && p in n.disk
    ensures var m := n.(disk := n.disk - {p});
            x in LocalChanges.Outbound(SyncLoop.Changed(m, noticed).0, m.disk) <==> x == LocalChanges.Remove(p)
  {
    hide LocalChanges.Announced, LocalChanges.Outbound, Settled;
    var m := n.(disk := n.disk - {p});
    LocalChanges.SentExactly(m.former, m.disk, m.written, m.graves, noticed, x);
    DeletionAt(n, p, noticed, fileOf, x.path);
  }

  lemma DeletionAt(n: State, p: Path, noticed: Ticks, fileOf: Hash -> Path, q: Path)
    requires Settled(n, fileOf) && p in n.disk
    ensures var m := n.(disk := n.disk - {p});
            var (diff, graves) := SyncLoop.Changed(m, noticed);
            && q !in diff.created && q !in diff.modified && (q in diff.removed <==> q == p)
            && (q in graves <==> q in n.graves || q == p)
            && (q in graves ==> graves[q] == if q == p then noticed else n.graves[q])
  {
    hide LocalChanges.Announced;
    var m := n.(disk := n.disk - {p});
    LocalChanges.AnnouncedExactly(m.former, m.disk, m.written, m.graves, noticed, q);
    LocalChanges.TombstonesExactly(m.former, m.disk, m.written, m.graves, noticed, q);
  }

  lemma DeleteTakes(n: State, p: Path, noticed: Ticks, deleted: Ticks, wall: int, name: Bytes,
                    fileOf: Hash -> Path, q: Path)
    requires Settled(n, fileOf) && p in n.disk && noticed <= deleted
    requires Fresh(n.graves, wall) && !Expired(noticed, wall)
    ensures var listed := SyncLoop.Relisted(n.(disk := n.disk - {p}), noticed, wall);
            var after := Receive(listed, RemoveFile(p, deleted), name, 0, 0);
            Settled(after, fileOf) && CellAt(after, q) == if q == p then Grave(deleted) else CellAt(n, q)
  {
    hide SyncLoop.Changed, SyncLoop.Relisted, Receive, CellAt, Settled;
    DeletionIsAnnounced(n, p, noticed, fileOf);
    var gone := n.(disk := n.disk - {p});
    assert Fresh(n.graves[p := noticed], wall);
    ListedAs(gone, noticed, wall, n.graves[p := noticed]);
    var listed := SyncLoop.Relisted(gone, noticed, wall);
    RemovedIs(listed, p, deleted, name);
    assert gone.disk - {p} == gone.disk;
    assert Marked(n.graves[p := noticed], p, deleted) == n.graves[p := deleted];
    FileIsGone(n, Receive(listed, RemoveFile(p, deleted), name, 0, 0), p, deleted, fileOf, q);
  }

  lemma RemovedIs(n: State, p: Path, deleted: Ticks, name: Bytes)
    ensures var after := Receive(n, RemoveFile(p, deleted), name, 0, 0);
            && after.disk == n.disk - {p} && after.former == n.former && after.written == n.written
            && after.graves == Marked(n.graves, p, deleted)
            && after.announcements == n.announcements - {p}
            && (forall t :: t in after.session <==> t in n.session && t.path != p)
  {
  }

  /** A deletion a peer asked for is not announced again. */
  lemma ObeyingFindsNothing(n: State, p: Path, deleted: Ticks, noticed: Ticks, name: Bytes, fileOf: Hash -> Path)
    requires Settled(n, fileOf)
    ensures var m := Receive(n, RemoveFile(p, deleted), name, 0, 0);
            SyncLoop.Changed(m, noticed) == (Files.Diff(map[], map[], map[]), m.graves)
  {
    hide Receive;
    var m := Receive(n, RemoveFile(p, deleted), name, 0, 0);
    RemovedIs(n, p, deleted, name);
    var (diff, graves) := SyncLoop.Changed(m, noticed);
    forall q
      ensures q !in diff.created && q !in diff.modified && q !in diff.removed
      ensures q in graves <==> q in m.graves
      ensures q in graves ==> graves[q] == m.graves[q]
    {
      LocalChanges.AnnouncedExactly(m.former, m.disk, m.written, m.graves, noticed, q);
      LocalChanges.TombstonesExactly(m.former, m.disk, m.written, m.graves, noticed, q);
    }
    hide LocalChanges.Announced;
    assert diff.removed == map[] && diff.created == map[] && diff.modified == map[];
    assert graves == m.graves;
  }

  lemma ObeyMeets(n: State, m: Packet, noticed: Ticks, wall: int, name: Bytes, p: Path, fileOf: Hash -> Path)
    requires Settled(n, fileOf) && m.Removal? && (m.path in n.disk ==> n.disk[m.path] < m.at)
    requires Fresh(n.graves, wall) && !Expired(m.at, wall)
    ensures var after := SyncLoop.Relisted(Receive(n, RemoveFile(m.path, m.at), name, 0, 0), noticed, wall);
            Settled(after, fileOf) && Meets(CellAt(n, p), Claim(m, p), CellAt(after, p))
  {
    hide Receive, SyncLoop.Changed, SyncLoop.Relisted;
    var removed := Receive(n, RemoveFile(m.path, m.at), name, 0, 0);
    RemovedIs(n, m.path, m.at, name);
    ObeyingFindsNothing(n, m.path, m.at, noticed, name, fileOf);
    ListedAs(removed, noticed, wall, removed.graves);
  }

  // ---- One step ----

  /** The tree, and all that being settled is about, is as it was. */
  ghost predicate Alike(n: State, after: State) {
    && after.disk == n.disk && after.former == n.former && after.graves == n.graves
    && after.session == n.session && after.announcements == n.announcements
  }

  predicate IsQuiet(step: Step) {
    step.GoRound? || step.Publish? || step.Relist? || step.Hear?
  }

  lemma QuietStepsAreAlike(n: State, step: Step, name: Bytes, fileOf: Hash -> Path)
    requires Settled(n, fileOf) && IsQuiet(step)
    requires step.Relist? ==> Fresh(n.graves, step.wall)
    ensures Alike(n, NodeAfter(n, step, name))
  {
    hide SyncLoop.Relisted, Repairs.Published, Speaking;
    if step.Relist? {
      RelistingFindsNothing(n, step.noticed, step.wall, fileOf);
    }
  }

  lemma AlikeCells(n: State, after: State, p: Path, fileOf: Hash -> Path)
    requires Settled(n, fileOf) && Alike(n, after)
    ensures Settled(after, fileOf) && CellAt(after, p) == CellAt(n, p)
  {
  }

  /** What one step makes of its node was there, came over the wire, or is what its user did. */
  lemma NodeMeets(s: Swarm, step: Step, w: World, first: seq<State>, p: Path)
    requires Sound(s, first, w) && Enabled(s, step, w)
    ensures var before, after := s.nodes[step.node], NodeAfter(s.nodes[step.node], step, w.names[step.node]);
            && Settled(after, w.fileOf) && AtMost(CellAt(before, p), CellAt(after, p))
            && (Original(Source(first, s.edits), p, CellAt(after, p)) || Edit(p, CellAt(after, p)) in EditsOf(step))
            && (forall e :: e in EditsOf(step) && e.path == p ==> e.value == CellAt(after, p))
  {
    hide CellAt, Claim, Settled, Original, WellSaid, DigestRead, Delivered, Receive, Encoded, SyncLoop.Relisted,
         Fresh, Expired, Drawn, Upheld;
    var n, name := s.nodes[step.node], w.names[step.node];
    CellsAreTotallyOrdered(CellAt(n, p), CellAt(n, p), CellAt(n, p));
    match step
    case Read(_, d, wall, now) => ReadMeets(n, d, wall, now, p, w.fileOf);
    case Deliver(_, r, written, flushed) => DeliverMeets(n, r, written, flushed, p, w.fileOf);
    case Obey(_, m, noticed, wall, _) => ObeyMeets(n, m, noticed, wall, name, p, w.fileOf);
    case Write(_, q, at, _, noticed, wall, _) => WriteTakes(n, q, at, noticed, wall, w.fileOf, p);
    case Delete(_, q, noticed, deleted, wall, _) =>
      DeleteTakes(n, q, noticed, deleted, wall, name, w.fileOf, p);
      HeldCell(n, q, w.fileOf);
    case _ =>
      QuietStepsAreAlike(n, step, name, w.fileOf);
      AlikeCells(n, NodeAfter(n, step, name), p, w.fileOf);
  }

  lemma HeldCell(n: State, p: Path, fileOf: Hash -> Path)
    requires Settled(n, fileOf) && p in n.disk
    ensures CellAt(n, p) == File(n.disk[p])
  {
  }

  lemma OriginalsStay(src: Source, more: seq<Edit>, p: Path, c: Cell)
    requires Original(src, p, c)
    ensures Original(src.(edits := src.edits + more), p, c)
  {
  }

  lemma StepIsSound(s: Swarm, step: Step, w: World, first: seq<State>)
    requires Sound(s, first, w) && Enabled(s, step, w)
    ensures Sound(After(s, step, w), first, w) && Climbed(s, After(s, step, w))
  {
    hide CellAt, Claim, Settled, Original, WellSaid, NodeAfter, PacketsOf, ClockAfter, EditsOf, Enabled, Upheld, Timely;
    var t, k := After(s, step, w), step.node;
    EnabledNode(s, step, w);
    forall i, p | 0 <= i < |t.nodes|
      ensures Original(Source(first, t.edits), p, CellAt(t.nodes[i], p))
      ensures AtMost(CellAt(s.nodes[i], p), CellAt(t.nodes[i], p))
    {
      NodeIsSound(s, step, w, first, i, p);
    }
    forall i | 0 <= i < |t.nodes|
      ensures Settled(t.nodes[i], w.fileOf)
    {
      NodeIsSound(s, step, w, first, i, []);
    }
    forall m, p | m in t.sent
      ensures WellSaid(m, w.fileOf) && Original(Source(first, t.edits), p, Claim(m, p))
    {
      NewOrOld(s, step, w, first, m, p);
    }
    forall m | m in t.sent
      ensures WellSaid(m, w.fileOf)
    {
      NewOrOld(s, step, w, first, m, []);
    }
    forall e | e in t.edits
      ensures Upheld(t.nodes, e)
    {
      EditIsUpheld(s, step, w, first, e);
    }
  }

  lemma EnabledNode(s: Swarm, step: Step, w: World)
    requires Enabled(s, step, w)
    ensures step.node < |s.nodes| == |s.clocks| == |w.names|
    ensures Timely(s.clocks[step.node]) ==> Timely(ClockAfter(s.clocks[step.node], step))
  {
  }

  lemma NodeIsSound(s: Swarm, step: Step, w: World, first: seq<State>, i: nat, p: Path)
    requires Sound(s, first, w) && Enabled(s, step, w) && i < |s.nodes|
    ensures var t := After(s, step, w);
            && Settled(t.nodes[i], w.fileOf) && AtMost(CellAt(s.nodes[i], p), CellAt(t.nodes[i], p))
            && Original(Source(first, t.edits), p, CellAt(t.nodes[i], p))
  {
    hide CellAt, Claim, Settled, WellSaid, NodeAfter, PacketsOf, ClockAfter, EditsOf, Upheld, Allowed;
    if i == step.node {
      NodeMeets(s, step, w, first, p);
    } else {
      CellsAreTotallyOrdered(CellAt(s.nodes[i], p), CellAt(s.nodes[i], p), CellAt(s.nodes[i], p));
      OriginalsStay(Source(first, s.edits), EditsOf(step), p, CellAt(s.nodes[i], p));
    }
  }

  lemma NewOrOld(s: Swarm, step: Step, w: World, first: seq<State>, m: Packet, p: Path)
    requires Sound(s, first, w) && Enabled(s, step, w)
    requires m in s.sent || m in PacketsOf(s.nodes[step.node], step, w.names[step.node], w.sha)
    ensures WellSaid(m, w.fileOf) && Original(Source(first, s.edits + EditsOf(step)), p, Claim(m, p))
  {
    hide CellAt, Claim, Settled, WellSaid, PacketsOf, EditsOf, Upheld, Allowed;
    if m !in s.sent {
      PacketsClaim(s, step, w, m, p);
    }
  }

  lemma EditIsUpheld(s: Swarm, step: Step, w: World, first: seq<State>, e: Edit)
    requires Sound(s, first, w) && Enabled(s, step, w) && e in s.edits + EditsOf(step)
    ensures Upheld(After(s, step, w).nodes, e)
  {
    hide CellAt, Claim, Settled, WellSaid, NodeAfter, PacketsOf, ClockAfter, EditsOf, Original, Allowed;
    var t := After(s, step, w);
    if e in s.edits {
      assert Upheld(s.nodes, e);
      var i :| 0 <= i < |s.nodes| && AtMost(e.value, CellAt(s.nodes[i], e.path));
      NodeIsSound(s, step, w, first, i, e.path);
      CellsAreTotallyOrdered(e.value, CellAt(s.nodes[i], e.path), CellAt(t.nodes[i], e.path));
    } else {
      NodeMeets(s, step, w, first, e.path);
      CellsAreTotallyOrdered(e.value, e.value, e.value);
      assert AtMost(e.value, CellAt(t.nodes[step.node], e.path));
    }
  }

  lemma ClimbedTransitive(s: Swarm, t: Swarm, u: Swarm)
    requires Climbed(s, t) && Climbed(t, u)
    ensures Climbed(s, u)
  {
    hide CellAt;
    forall i, p | 0 <= i < |s.nodes|
      ensures AtMost(CellAt(s.nodes[i], p), CellAt(u.nodes[i], p))
    {
      CellsAreTotallyOrdered(CellAt(s.nodes[i], p), CellAt(t.nodes[i], p), CellAt(u.nodes[i], p));
    }
  }

  /** Over every run each node only climbs, at every path, and neither a node nor a message ever
      carries a value that no node started with and no user made. */
  lemma {:induction false} RunsClimb(s: Swarm, steps: seq<Step>, t: Swarm, w: World, first: seq<State>)
    requires Sound(s, first, w) && Run(s, steps, t, w)
    ensures Sound(t, first, w) && Climbed(s, t) && s.edits <= t.edits
    decreases |steps|
  {
    hide Sound, CellAt, Enabled, NodeAfter, PacketsOf, ClockAfter, EditsOf;
    if |steps| > 0 {
      StepIsSound(s, steps[0], w, first);
      RunsClimb(After(s, steps[0], w), steps[1..], t, w, first);
      ClimbedTransitive(s, After(s, steps[0], w), t);
    } else {
      StaysClimbed(s);
    }
  }

  lemma StaysClimbed(s: Swarm)
    ensures Climbed(s, s)
  {
  }

  /** Settled nodes that have said nothing yet. */
  ghost predicate Begins(s: Swarm, w: World) {
    && |s.nodes| == |s.clocks| == |w.names| && s.sent == {} && s.edits == []
    && (forall i :: 0 <= i < |s.clocks| ==> Timely(s.clocks[i]))
    && forall i :: 0 <= i < |s.nodes| ==> Settled(s.nodes[i], w.fileOf)
  }

  lemma StartIsSound(s: Swarm, w: World)
    requires Begins(s, w)
    ensures Sound(s, s.nodes, w)
  {
  }

  // ---- The join of all there was ----

  function Top(nodes: seq<State>, p: Path): (top: Cell)
    decreases |nodes|
  {
    if |nodes| == 0 then Nothing else Join(CellAt(nodes[0], p), Top(nodes[1..], p))
  }

  function Latest(edits: seq<Edit>, p: Path): (latest: Cell)
    decreases |edits|
  {
    if |edits| == 0 then Nothing
    else if edits[0].path == p then Join(edits[0].value, Latest(edits[1..], p))
    else Latest(edits[1..], p)
  }

  /** The greatest of what the nodes started with and what users did since. */
  function Ceiling(src: Source, p: Path): (c: Cell) {
    Join(Top(src.first, p), Latest(src.edits, p))
  }

  lemma {:induction false} TopIsGreatest(nodes: seq<State>, p: Path)
    ensures forall i :: 0 <= i < |nodes| ==> AtMost(CellAt(nodes[i], p), Top(nodes, p))
    ensures Top(nodes, p).Nothing? || exists i :: 0 <= i < |nodes| && CellAt(nodes[i], p) == Top(nodes, p)
    decreases |nodes|
  {
    hide CellAt;
    if |nodes| > 0 {
      TopIsGreatest(nodes[1..], p);
      if Top(nodes, p) == CellAt(nodes[0], p) {
      } else {
        assert Top(nodes, p) == Top(nodes[1..], p);
        if !Top(nodes, p).Nothing? {
          var i :| 0 <= i < |nodes[1..]| && CellAt(nodes[1..][i], p) == Top(nodes, p);
          assert nodes[i + 1] == nodes[1..][i];
        }
      }
    }
  }

  lemma {:induction false} LatestIsGreatest(edits: seq<Edit>, p: Path)
    ensures forall e :: e in edits && e.path == p ==> AtMost(e.value, Latest(edits, p))
    ensures Latest(edits, p).Nothing? || Edit(p, Latest(edits, p)) in edits
    decreases |edits|
  {
    if |edits| > 0 {
      var head, rest := edits[0], edits[1..];
      assert edits == [head] + rest;
      LatestIsGreatest(rest, p);
      CellsAreTotallyOrdered(head.value, Latest(rest, p), head.value);
      forall e | e in edits && e.path == p
        ensures AtMost(e.value, Latest(edits, p))
      {
        CellsAreTotallyOrdered(e.value, Latest(rest, p), head.value);
      }
      assert head.path == p ==> head == Edit(p, head.value);
    }
  }

  lemma CeilingIsGreatest(src: Source, p: Path)
    ensures forall i :: 0 <= i < |src.first| ==> AtMost(CellAt(src.first[i], p), Ceiling(src, p))
    ensures forall e :: e in src.edits && e.path == p ==> AtMost(e.value, Ceiling(src, p))
    ensures Original(src, p, Ceiling(src, p))
  {
    hide CellAt, Top, Latest;
    TopIsGreatest(src.first, p);
    LatestIsGreatest(src.edits, p);
    var a, b := Top(src.first, p), Latest(src.edits, p);
    JoinIsLeastUpperBound(a, b, a);
    forall i | 0 <= i < |src.first|
      ensures AtMost(CellAt(src.first[i], p), Ceiling(src, p))
    {
      CellsAreTotallyOrdered(CellAt(src.first[i], p), a, Ceiling(src, p));
    }
    forall e | e in src.edits && e.path == p
      ensures AtMost(e.value, Ceiling(src, p))
    {
      CellsAreTotallyOrdered(e.value, b, Ceiling(src, p));
    }
  }

  lemma OriginalsAreBelow(src: Source, p: Path, c: Cell)
    requires Original(src, p, c)
    ensures AtMost(c, Ceiling(src, p))
  {
    hide CellAt, Ceiling;
    CeilingIsGreatest(src, p);
    if !c.Nothing? && Edit(p, c) in src.edits {
      assert Edit(p, c).path == p;
    }
  }

  /** Whatever was lost, repeated or reordered on the way, nothing held or in flight exceeds the join
      of what the nodes started with and what users did since, and that join is what the nodes hold
      between them. */
  lemma JoinIsConserved(s: Swarm, steps: seq<Step>, t: Swarm, w: World, p: Path)
    requires Begins(s, w) && Run(s, steps, t, w)
    ensures |t.nodes| == |s.nodes|
    ensures var ceiling := Ceiling(Source(s.nodes, t.edits), p);
            && (forall i :: 0 <= i < |s.nodes| ==>
                  Settled(t.nodes[i], w.fileOf)
                  && AtMost(CellAt(s.nodes[i], p), CellAt(t.nodes[i], p))
                  && AtMost(CellAt(t.nodes[i], p), ceiling))
            && (forall m :: m in t.sent ==> AtMost(Claim(m, p), ceiling))
            && Top(t.nodes, p) == ceiling
  {
    hide CellAt, Top, Claim, Settled, Enabled, After, Ceiling, Original, Upheld, Timely, WellSaid;
    StartIsSound(s, w);
    RunsClimb(s, steps, t, w, s.nodes);
    var src := Source(s.nodes, t.edits);
    forall i | 0 <= i < |s.nodes|
      ensures AtMost(CellAt(t.nodes[i], p), Ceiling(src, p))
    {
      OriginalsAreBelow(src, p, CellAt(t.nodes[i], p));
    }
    forall m | m in t.sent
      ensures AtMost(Claim(m, p), Ceiling(src, p))
    {
      OriginalsAreBelow(src, p, Claim(m, p));
    }
    SameTop(src, t.nodes, p);
  }

  lemma SameTop(src: Source, nodes: seq<State>, p: Path)
    requires |src.first| == |nodes| && forall e :: e in src.edits ==> Upheld(nodes, e)
    requires forall i :: 0 <= i < |nodes| ==>
      AtMost(CellAt(src.first[i], p), CellAt(nodes[i], p)) && AtMost(CellAt(nodes[i], p), Ceiling(src, p))
    ensures Top(nodes, p) == Ceiling(src, p)
  {
    hide CellAt, Top, Ceiling;
    CeilingIsGreatest(src, p);
    TopIsGreatest(nodes, p);
    var top, ceiling := Top(nodes, p), Ceiling(src, p);
    if !ceiling.Nothing? {
      if Edit(p, ceiling) in src.edits {
        assert Upheld(nodes, Edit(p, ceiling));
        var i :| 0 <= i < |nodes| && AtMost(ceiling, CellAt(nodes[i], p));
        CellsAreTotallyOrdered(ceiling, CellAt(nodes[i], p), top);
      } else {
        var i :| 0 <= i < |nodes| && CellAt(src.first[i], p) == ceiling;
        CellsAreTotallyOrdered(ceiling, CellAt(nodes[i], p), top);
      }
    }
    if !top.Nothing? {
      var i :| 0 <= i < |nodes| && CellAt(nodes[i], p) == top;
      assert AtMost(top, ceiling);
    }
    CellsAreTotallyOrdered(top, ceiling, top);
  }

  // ---- Quiet means converged ----

  /** What a node has left to adopt from another is nothing, and what the other has left to repair
      for it is nothing: then it holds, everywhere, at least what the other does. */
  lemma QuietPair(a: State, b: State, now: int, p: Path)
    requires Tidy(View(a)) && Tidy(View(b)) && Fresh(b.graves, now)
    requires Adoptable(b.graves, a.former, a.graves, now) == map[]
    requires Gaps(b.former, b.graves, a.former) == []
    ensures AtMost(CellAt(b, p), CellAt(a, p))
  {
    if p in b.former {
      assert p !in Gaps(b.former, b.graves, a.former);
    } else if p in b.graves {
      assert p !in Adoptable(b.graves, a.former, a.graves, now);
    }
  }

  ghost predicate Quiet(nodes: seq<State>, now: int) {
    forall i, j :: 0 <= i < |nodes| && 0 <= j < |nodes| ==>
      && Adoptable(nodes[j].graves, nodes[i].former, nodes[i].graves, now) == map[]
      && Gaps(nodes[j].former, nodes[j].graves, nodes[i].former) == []
  }

  ghost predicate AllFresh(nodes: seq<State>, now: int) {
    forall i :: 0 <= i < |nodes| ==> Fresh(nodes[i].graves, now)
  }

  ghost predicate AllTidy(nodes: seq<State>) {
    forall i :: 0 <= i < |nodes| ==> Tidy(View(nodes[i]))
  }

  lemma QuietMeansEqual(nodes: seq<State>, now: int, i: nat, p: Path)
    requires i < |nodes| && Quiet(nodes, now) && AllFresh(nodes, now) && AllTidy(nodes)
    ensures CellAt(nodes[i], p) == Top(nodes, p)
  {
    hide CellAt, Top, Fresh;
    TopIsGreatest(nodes, p);
    if !Top(nodes, p).Nothing? {
      var k :| 0 <= k < |nodes| && CellAt(nodes[k], p) == Top(nodes, p);
      QuietPair(nodes[i], nodes[k], now, p);
    }
  }

  /** Every node holds, at every path, the join of what they all started with and all that users
      did. */
  ghost predicate Converged(nodes: seq<State>, src: Source) {
    forall i, p :: 0 <= i < |nodes| ==> CellAt(nodes[i], p) == Ceiling(src, p)
  }

  lemma EqualMeansQuiet(nodes: seq<State>, src: Source, now: int)
    requires AllTidy(nodes) && Converged(nodes, src)
    ensures Quiet(nodes, now)
  {
    hide CellAt, Ceiling, Adoptable, Gaps;
    forall i, j | 0 <= i < |nodes| && 0 <= j < |nodes|
      ensures Adoptable(nodes[j].graves, nodes[i].former, nodes[i].graves, now) == map[]
      ensures Gaps(nodes[j].former, nodes[j].graves, nodes[i].former) == []
    {
      forall p
        ensures CellAt(nodes[i], p) == CellAt(nodes[j], p)
      {
        assert CellAt(nodes[i], p) == Ceiling(src, p);
      }
      SameCells(nodes[i], nodes[j]);
      EqualsAreQuiet(nodes[i], nodes[j], now);
      EqualsAreQuiet(nodes[j], nodes[i], now);
    }
  }

  /** In whatever state a run ends, no tombstone having expired: no node has anything to adopt from or
      to repair for another exactly when every node holds, at every path, the join of what they all
      started with and of all that was written and deleted since. */
  lemma QuietExactlyWhenConverged(s: Swarm, steps: seq<Step>, t: Swarm, w: World, now: int)
    requires Begins(s, w) && Run(s, steps, t, w) && AllFresh(t.nodes, now)
    ensures Quiet(t.nodes, now) <==> Converged(t.nodes, Source(s.nodes, t.edits))
  {
    hide CellAt, Top, Ceiling, Settled, Fresh, Quiet, Run, Begins;
    var src := Source(s.nodes, t.edits);
    forall p
      ensures Top(t.nodes, p) == Ceiling(src, p)
    {
      JoinIsConserved(s, steps, t, w, p);
    }
    JoinIsConserved(s, steps, t, w, []);
    forall i | 0 <= i < |t.nodes|
      ensures Tidy(View(t.nodes[i]))
    {
      SettledIsTidy(t.nodes[i], w.fileOf);
    }
    if Quiet(t.nodes, now) {
      forall i, p | 0 <= i < |t.nodes|
        ensures CellAt(t.nodes[i], p) == Ceiling(src, p)
      {
        QuietMeansEqual(t.nodes, now, i, p);
      }
    }
    if Converged(t.nodes, src) {
      EqualMeansQuiet(t.nodes, src, now);
    }
  }

  lemma SameCells(a: State, b: State)
    requires Tidy(View(a)) && Tidy(View(b)) && forall p :: CellAt(a, p) == CellAt(b, p)
    ensures View(a) == View(b)
  {
    forall p
      ensures CellOf(View(a), p) == CellOf(View(b), p)
    {
      assert CellAt(a, p) == CellAt(b, p);
    }
    CellsDecideTree(View(a), View(b));
  }

  // ---- Progress ----

  ghost function PathsNamed(src: Source): (named: set<Path>) {
    (set i, p | 0 <= i < |src.first| && p in src.first[i].former.Keys + src.first[i].graves.Keys :: p)
    + (set k | 0 <= k < |src.edits| :: src.edits[k].path)
  }

  ghost function Values(src: Source): (values: set<Cell>) {
    (set i, p | 0 <= i < |src.first| && p in PathsNamed(src) :: CellAt(src.first[i], p))
    + (set k | 0 <= k < |src.edits| :: src.edits[k].value)
  }

  /** What the nodes still have to climb: every original value still above the one a node has. */
  ghost function Room(nodes: seq<State>, src: Source): (room: set<(int, Path, Cell)>) {
    set i, p, c | 0 <= i < |nodes| && p in PathsNamed(src) && c in Values(src)
                  && Original(src, p, c) && Below(CellAt(nodes[i], p), c) :: (i, p, c)
  }

  lemma OriginalsAreValues(src: Source, p: Path, c: Cell)
    requires Original(src, p, c) && !c.Nothing?
    ensures p in PathsNamed(src) && c in Values(src)
  {
    if Edit(p, c) in src.edits {
      var k :| 0 <= k < |src.edits| && src.edits[k] == Edit(p, c);
      assert src.edits[k].path == p && src.edits[k].value == c;
    } else {
      var i :| 0 <= i < |src.first| && CellAt(src.first[i], p) == c;
      assert p in src.first[i].former.Keys + src.first[i].graves.Keys;
    }
  }

  lemma RoomShrinks(s: Swarm, t: Swarm, src: Source)
    requires Climbed(s, t)
    ensures Room(t.nodes, src) <= Room(s.nodes, src)
  {
    hide CellAt, Values, PathsNamed, Original;
    forall x | x in Room(t.nodes, src)
      ensures x in Room(s.nodes, src)
    {
      CellsAreTotallyOrdered(CellAt(s.nodes[x.0], x.1), CellAt(t.nodes[x.0], x.1), x.2);
      CellsAreTotallyOrdered(x.2, CellAt(s.nodes[x.0], x.1), CellAt(t.nodes[x.0], x.1));
    }
  }

  /** Some node's tree is not what it was. */
  ghost predicate Moved(s: Swarm, t: Swarm) {
    |s.nodes| != |t.nodes| || exists i :: 0 <= i < |s.nodes| && View(s.nodes[i]) != View(t.nodes[i])
  }

  lemma MovingTakesRoom(s: Swarm, t: Swarm, src: Source, i: nat, p: Path)
    requires Climbed(s, t) && i < |s.nodes|
    requires Original(src, p, CellAt(t.nodes[i], p)) && Below(CellAt(s.nodes[i], p), CellAt(t.nodes[i], p))
    ensures |Room(t.nodes, src)| < |Room(s.nodes, src)|
  {
    hide CellAt, Values, PathsNamed;
    var c := CellAt(t.nodes[i], p);
    OriginalsAreValues(src, p, c);
    RoomShrinks(s, t, src);
    assert (i as int, p, c) in Room(s.nodes, src);
    assert (i as int, p, c) !in Room(t.nodes, src);
    ProperSubset(Room(t.nodes, src), Room(s.nodes, src));
  }

  lemma ProperSubset<T>(a: set<T>, b: set<T>)
    requires a < b
    ensures |a| < |b|
  {
    assert b == a + (b - a);
    assert b - a != {};
  }

  lemma MovedSomewhere(s: Swarm, t: Swarm, w: World, first: seq<State>, edits: seq<Edit>)
    requires Sound(s, first, w) && Sound(t, first, w) && Climbed(s, t) && Moved(s, t) && t.edits <= edits
    ensures |Room(t.nodes, Source(first, edits))| < |Room(s.nodes, Source(first, edits))|
  {
    hide CellAt, Room, Settled, Original, WellSaid, Claim, Upheld, Timely;
    var i :| 0 <= i < |s.nodes| && View(s.nodes[i]) != View(t.nodes[i]);
    SettledIsTidy(s.nodes[i], w.fileOf);
    SettledIsTidy(t.nodes[i], w.fileOf);
    if forall p :: CellAt(s.nodes[i], p) == CellAt(t.nodes[i], p) {
      SameCells(s.nodes[i], t.nodes[i]);
    }
    var p :| CellAt(s.nodes[i], p) != CellAt(t.nodes[i], p);
    assert edits == t.edits + edits[|t.edits|..];
    OriginalsStay(Source(first, t.edits), edits[|t.edits|..], p, CellAt(t.nodes[i], p));
    MovingTakesRoom(s, t, Source(first, edits), i, p);
  }

  /** How many steps of a run change some node's tree. */
  ghost function Moves(s: Swarm, steps: seq<Step>, w: World): (count: nat)
    decreases |steps|
  {
    if |steps| == 0 || !Enabled(s, steps[0], w) then 0
    else (if Moved(s, After(s, steps[0], w)) then 1 else 0) + Moves(After(s, steps[0], w), steps[1..], w)
  }

  /** In any run at all the steps that change something are at most as many as there are values left
      to climb to at its start, what users do on the way among them. */
  lemma {:induction false} MovesAreBounded(s: Swarm, steps: seq<Step>, t: Swarm, w: World, first: seq<State>)
    requires Sound(s, first, w) && Run(s, steps, t, w)
    ensures var src := Source(first, t.edits);
            Moves(s, steps, w) + |Room(t.nodes, src)| <= |Room(s.nodes, src)|
    decreases |steps|
  {
    hide Sound, After, Room, Moved, Climbed, Enabled;
    if |steps| > 0 {
      var next := After(s, steps[0], w);
      StepIsSound(s, steps[0], w, first);
      RunsClimb(next, steps[1..], t, w, first);
      MovesAreBounded(next, steps[1..], t, w, first);
      if Moved(s, next) {
        MovedSomewhere(s, next, w, first, t.edits);
      } else {
        RoomNoLarger(s, next, Source(first, t.edits));
      }
    }
  }

  lemma RoomNoLarger(s: Swarm, t: Swarm, src: Source)
    requires Climbed(s, t)
    ensures |Room(t.nodes, src)| <= |Room(s.nodes, src)|
  {
    hide Room, Climbed;
    RoomShrinks(s, t, src);
    if Room(t.nodes, src) < Room(s.nodes, src) {
      ProperSubset(Room(t.nodes, src), Room(s.nodes, src));
    } else {
      assert Room(t.nodes, src) == Room(s.nodes, src);
    }
  }
}
