/** The daemon's loop as a state machine: what its order of steps keeps true. */
module SyncLoop {
  import opened Paths
  import opened Decimal
  import opened Wire
  import opened Reconcile
  import opened Files
  import opened Node
  import Settle
  import LocalChanges
  import Repairs
  import Ladder

  /** One turn of the loop: alerts are drained, the tree is listed again if anything in it changed,
      the round goes out, and at most one message is received. */
  datatype Phase = Draining | Relisting | Rounding | Receiving

  /** `dirty` is whether the monitor has something to report; `gone` is what the user deleted since
      the last listing. */
  datatype Loop = Loop(n: State, phase: Phase, dirty: bool, gone: set<Path>)

  /** A torrent's file has reached the disk. */
  datatype Flush = Flush(torrent: Torrent, at: Ticks)

  datatype Event =
    // what the user and libtorrent do to the directory, at any time
    | UserWrites(path: Path, at: Ticks)
    | UserDeletes(path: Path)
    | TransferWrites(path: Path, at: Ticks, seen: bool)
    // what the loop does, in its order
    | Drains(flushes: seq<Flush>)
    | Relists(noticed: Ticks, wall: int)
    | GoesRound(stateDue: bool, now: int)
    | Receives(m: Incoming, wall: int, steady: int)
    | ReceivesNothing

  predicate Serves(n: State, p: Path) {
    exists t :: t in n.session && t.path == p
  }

  /** A torrent names one file; `fileOf` is the one its content is for. */
  ghost predicate Enabled(l: Loop, e: Event, fileOf: Hash -> Path) {
    match e
    case UserWrites(_, _) => true
    case UserDeletes(p) => p in l.n.disk
    case TransferWrites(p, _, _) => Serves(l.n, p)
    case Drains(_) => l.phase.Draining?
    case Relists(_, _) => l.phase.Relisting?
    case GoesRound(_, _) => l.phase.Rounding?
    case Receives(m, _, _) => l.phase.Receiving? && (m.AddFile? ==> fileOf(m.what.content) == m.path)
    case ReceivesNothing => l.phase.Receiving?
  }

  /** A flush is acted on only while its torrent is still in the session. */
  function Flushed(n: State, f: Flush): (after: State) {
    if f.torrent in n.session then Stamped(n, f.torrent.path, f.at) else n
  }

  function Drained(n: State, flushes: seq<Flush>): (after: State)
    decreases |flushes|
  {
    if |flushes| == 0 then n
    else Drained(Flushed(n, flushes[0]), flushes[1..])
  }

  ghost function Changed(n: State, noticed: Ticks): (found: (Diff, TimeMap)) {
    LocalChanges.Announced(n.former, n.disk, n.written, n.graves, noticed)
  }

  /** Listing again: the changes are published, the listing becomes the disk, and the spent snapshots
      and expired tombstones are forgotten, in that order. */
  ghost function Relisted(n: State, noticed: Ticks, wall: int): (after: State) {
    n.(former := n.disk,
       written := (map p | p in n.written && p in n.disk :: n.written[p]),
       graves := Unexpired(Changed(n, noticed).1, wall))
  }

  function AfterRound(n: State, stateDue: bool, now: int): (after: State) {
    n.(peers := if stateDue then Speaking(n.peers, now) else n.peers,
       pending := Repairs.Published(n.pending, n.former.Keys, n.announcements.Keys, now))
  }

  /** The monitor reports a deletion made on a peer's word as it reports any other. */
  ghost function After(l: Loop, e: Event, own: Bytes): (after: Loop) {
    match e
    case UserWrites(p, at) => l.(n := l.n.(disk := l.n.disk[p := at]), dirty := true)
    case UserDeletes(p) => l.(n := l.n.(disk := l.n.disk - {p}), dirty := true, gone := l.gone + {p})
    case TransferWrites(p, at, seen) =>
      l.(n := l.n.(disk := l.n.disk[p := at]), dirty := l.dirty || seen)
    case Drains(flushes) => l.(n := Drained(l.n, flushes), phase := Relisting)
    case Relists(noticed, wall) =>
      if l.dirty then Loop(Relisted(l.n, noticed, wall), Rounding, false, {}) else l.(phase := Rounding)
    case GoesRound(due, now) => l.(n := AfterRound(l.n, due, now), phase := Receiving)
    case Receives(m, wall, steady) =>
      var n := Receive(l.n, m, own, wall, steady);
      Loop(n, Draining, l.dirty || !(l.n.disk.Keys <= n.disk.Keys), l.gone)
    case ReceivesNothing => l.(phase := Draining)
  }

  ghost predicate Run(l: Loop, es: seq<Event>, l': Loop, own: Bytes, fileOf: Hash -> Path)
    decreases |es|
  {
    if |es| == 0 then l == l'
    else Enabled(l, es[0], fileOf) && Run(After(l, es[0], own), es[1..], l', own, fileOf)
  }

  /** A daemon starting in a directory: it has listed it and remembers nothing else. */
  function Booted(disk: TimeMap): (loop: Loop) {
    Loop(State(disk, disk, map[], map[], map[], map[], map[], map[], {}, map[]), Draining, false, {})
  }

  // ---- What every step keeps ----

  function Missing(n: State): (missing: set<Path>) {
    n.former.Keys - n.disk.Keys
  }

  /** Every listed path missing from the disk was deleted by the user or is remembered deleted; once
      the listing has been brought up to date, and until a message is received, by the user. */
  ghost predicate Explained(l: Loop) {
    && (!l.dirty ==> Missing(l.n) == {})
    && Missing(l.n) <= l.gone + l.n.graves.Keys
    && (l.phase.Rounding? || l.phase.Receiving? ==> Missing(l.n) <= l.gone)
  }

  /** What stamping leaves alone, and that it never loses sight of a file. */
  ghost predicate StampedOnly(n: State, after: State) {
    && after.disk.Keys == n.disk.Keys
    && Missing(after) <= Missing(n)
    && after.graves == n.graves && after.session == n.session && after.pending == n.pending
    && after.announcements == n.announcements && after.applied == n.applied
  }

  /** The three things stamping may do, field by field. */
  lemma StampIs(n: State, p: Path, at: Ticks)
    ensures var after := Stamped(n, p, at);
            && after.graves == n.graves && after.session == n.session && after.pending == n.pending
            && after.announcements == n.announcements && after.applied == n.applied
            && (if p !in n.disk || n.disk[p] > at then
                  after.disk == n.disk && after.former == n.former && after.written == n.written
                else
                  var time := if p in n.origins then n.origins[p] else n.disk[p];
                  after.disk == n.disk[p := time] && after.former == n.former[p := time]
                  && after.written == n.written[p := time])
  {
    hide Stamped;
    if p !in n.disk {
      StampsNothing(n, p, at);
    } else if n.disk[p] > at {
      Settle.EditSurvivesStamp(n, p, at);
    } else {
      StampSets(n, p, at);
    }
  }

  lemma StampsNothing(n: State, p: Path, at: Ticks)
    requires p !in n.disk
    ensures Stamped(n, p, at) == n
  {
  }

  lemma StampSets(n: State, p: Path, at: Ticks)
    requires p in n.disk && n.disk[p] <= at
    ensures var time := if p in n.origins then n.origins[p] else n.disk[p];
            Stamped(n, p, at) ==
            n.(disk := n.disk[p := time], origins := n.origins - {p},
               written := n.written[p := time], former := n.former[p := time])
  {
  }

  lemma StampKeeps(n: State, p: Path, at: Ticks)
    ensures StampedOnly(n, Stamped(n, p, at))
  {
    hide Stamped;
    StampIs(n, p, at);
    if p in n.disk && n.disk[p] <= at {
      var time := if p in n.origins then n.origins[p] else n.disk[p];
      Rewritten(n.disk, p, time);
      assert n.former[p := time].Keys == n.former.Keys + {p};
    }
  }

  lemma Rewritten(m: TimeMap, p: Path, time: Ticks)
    requires p in m
    ensures m[p := time].Keys == m.Keys
  {
  }

  /** A flush stamps the file its torrent serves, and one of a torrent no longer in the session nothing:
      a file no newer than the flush gets its waiting time on disk, listing and snapshot, or keeps its own
      there if none waits; a newer one keeps its time and loses the waiting one. */
  lemma FlushExactly(n: State, f: Flush)
    ensures Flushed(n, f) ==
            var p := f.torrent.path;
            if f.torrent !in n.session || p !in n.disk then n
            else if n.disk[p] > f.at then n.(origins := n.origins - {p})
            else
              var time := if p in n.origins then n.origins[p] else n.disk[p];
              n.(disk := n.disk[p := time], former := n.former[p := time], written := n.written[p := time],
                 origins := n.origins - {p})
  {
    hide Stamped;
    var p := f.torrent.path;
    if p !in n.disk {
      StampsNothing(n, p, f.at);
    } else if n.disk[p] > f.at {
      Settle.EditSurvivesStamp(n, p, f.at);
    } else {
      StampSets(n, p, f.at);
    }
  }

  /** Flushes are drained in the order they come. */
  lemma {:induction false} DrainedInOrder(n: State, flushes: seq<Flush>, f: Flush)
    ensures Drained(n, flushes + [f]) == Flushed(Drained(n, flushes), f)
    decreases |flushes|
  {
    hide Flushed;
    if |flushes| == 0 {
      assert flushes + [f] == [f] && [f][1..] == [];
    } else {
      assert (flushes + [f])[1..] == flushes[1..] + [f];
      DrainedInOrder(Flushed(n, flushes[0]), flushes[1..], f);
    }
  }

  /** A transfer, as creates followed through have it, is the write and the drain of its flush. */
  lemma TransferIsDrained(n: State, p: Path, content: Hash, written: Ticks, flushed: Ticks)
    ensures var torrent := Torrent(content, p);
            Settle.Transferred(n, p, content, written, flushed) ==
            Drained(if torrent in n.session then n.(disk := n.disk[p := written]) else n, [Flush(torrent, flushed)])
  {
    hide Stamped;
    var f := Flush(Torrent(content, p), flushed);
    var start := if f.torrent in n.session then n.(disk := n.disk[p := written]) else n;
    assert [f][1..] == [];
    assert Drained(Flushed(start, f), []) == Flushed(start, f);
  }

  lemma {:induction false} DrainKeeps(n: State, flushes: seq<Flush>)
    ensures StampedOnly(n, Drained(n, flushes))
    decreases |flushes|
  {
    hide Stamped;
    if |flushes| > 0 {
      StampKeeps(n, flushes[0].torrent.path, flushes[0].at);
      DrainKeeps(Flushed(n, flushes[0]), flushes[1..]);
    }
  }

  // ---- An edit under its own transfer ----

  /** What decides whether and how a path is announced. */
  ghost predicate AlikeAt(n: State, after: State, p: Path) {
    && p in n.disk && p in after.disk && after.disk[p] == n.disk[p]
    && (p in after.former <==> p in n.former) && (p in n.former ==> after.former[p] == n.former[p])
    && (p in after.written <==> p in n.written) && (p in n.written ==> after.written[p] == n.written[p])
    && after.graves == n.graves
  }

  lemma FlushLeavesEdit(n: State, f: Flush, p: Path)
    requires p in n.disk && (f.torrent.path == p ==> f.at < n.disk[p])
    ensures AlikeAt(n, Flushed(n, f), p)
  {
    hide Stamped;
    if f.torrent.path == p {
      Settle.EditSurvivesStamp(n, p, f.at);
    } else {
      StampIsLocal(n, f.torrent.path, f.at, p);
    }
  }

  lemma StampIsLocal(n: State, q: Path, at: Ticks, p: Path)
    requires p in n.disk && q != p
    ensures AlikeAt(n, Stamped(n, q, at), p)
  {
    hide Stamped;
    StampIs(n, q, at);
    if q in n.disk && n.disk[q] <= at {
      var time := if q in n.origins then n.origins[q] else n.disk[q];
      PutElsewhere(n.disk, q, time, p);
      PutElsewhere(n.former, q, time, p);
      PutElsewhere(n.written, q, time, p);
    }
  }

  lemma PutElsewhere(m: TimeMap, q: Path, time: Ticks, p: Path)
    requires q != p
    ensures (p in m[q := time] <==> p in m) && (p in m ==> m[q := time][p] == m[p])
  {
  }

  lemma {:induction false} DrainLeavesEdit(n: State, flushes: seq<Flush>, p: Path)
    requires p in n.disk
    requires forall i :: 0 <= i < |flushes| && flushes[i].torrent.path == p ==> flushes[i].at < n.disk[p]
    ensures AlikeAt(n, Drained(n, flushes), p)
    decreases |flushes|
  {
    hide Flushed;
    if |flushes| > 0 {
      FlushLeavesEdit(n, flushes[0], p);
      DrainLeavesEdit(Flushed(n, flushes[0]), flushes[1..], p);
    }
  }

  /** A file edited since its transfer was flushed is announced at the next listing exactly as it would
      have been had no alert been drained: draining never hides an edit. */
  lemma EditIsStillAnnounced(n: State, flushes: seq<Flush>, p: Path, noticed: Ticks)
    requires p in n.disk
    requires forall i :: 0 <= i < |flushes| && flushes[i].torrent.path == p ==> flushes[i].at < n.disk[p]
    ensures var before, after := Changed(n, noticed).0, Changed(Drained(n, flushes), noticed).0;
            && p in Drained(n, flushes).disk && Drained(n, flushes).disk[p] == n.disk[p]
            && (p in after.created <==> p in before.created)
            && (p in after.modified <==> p in before.modified)
  {
    hide Drained, LocalChanges.Announced;
    DrainLeavesEdit(n, flushes, p);
    var m := Drained(n, flushes);
    LocalChanges.AnnouncedExactly(n.former, n.disk, n.written, n.graves, noticed, p);
    LocalChanges.AnnouncedExactly(m.former, m.disk, m.written, m.graves, noticed, p);
  }

  /** A deletion received leaves a tombstone and nothing else to remember the path by, except in
      the listing: no torrent, no announcement, no pending repair. */
  lemma RemoveLeaves(n: State, p: Path, deleted: Ticks, own: Bytes)
    ensures var after := Receive(n, RemoveFile(p, deleted), own, 0, 0);
            && after.former == n.former && after.disk == n.disk - {p}
            && p !in after.announcements && p !in after.applied && p !in after.pending
            && (forall t :: t in after.session ==> t.path != p)
            && p in after.graves
            && after.graves[p] == if p in n.graves && n.graves[p] >= deleted then n.graves[p] else deleted
  {
  }

  lemma AddExplains(n: State, what: Announcement, origin: Ticks, p: Path, own: Bytes)
    ensures var after := Receive(n, AddFile(what, origin, p), own, 0, 0);
            after.disk.Keys == n.disk.Keys && Missing(after) <= Missing(n)
  {
    hide Serving, Wins, Stamped;
    var (acted, out) := Act(n, AddFile(what, origin, p));
    if out.Made? {
      StampKeeps(acted.(origins := acted.origins[p := origin]), p, origin);
    }
  }

  lemma DigestExplains(n: State, held: Bytes, graves: Bytes, own: Bytes, wall: int, steady: int)
    ensures var after := Receive(n, DigestOf(held, graves), own, wall, steady);
            Missing(after) <= Missing(n)
  {
    hide Adoptable, Decoded, Gaps, Ladder.Arm;
  }

  /** What a message takes off the disk it also leaves a tombstone for or takes out of the listing. */
  lemma ReceiveExplains(n: State, m: Incoming, own: Bytes, wall: int, steady: int)
    ensures var after := Receive(n, m, own, wall, steady);
            && Missing(after) <= Missing(n) + after.graves.Keys
            && (n.disk.Keys <= after.disk.Keys ==> Missing(after) <= Missing(n))
  {
    match m
    case RemoveFile(p, deleted) =>
      hide Receive;
      RemoveLeaves(n, p, deleted, own);
      SameForAll(n, m, own, wall, steady);
    case AddFile(what, origin, p) =>
      hide Receive;
      AddExplains(n, what, origin, p, own);
      SameForAll(n, m, own, wall, steady);
    case DigestOf(held, graves) =>
      hide Receive;
      DigestExplains(n, held, graves, own, wall, steady);
    case StateOf(_, _) =>
  }

  /** The two data verbs do not look at the clocks. */
  lemma SameForAll(n: State, m: Incoming, own: Bytes, wall: int, steady: int)
    requires m.RemoveFile? || m.AddFile?
    ensures Receive(n, m, own, wall, steady) == Receive(n, m, own, 0, 0)
  {
  }

  /** A create followed through is what the loop makes of receiving it, of the write its transfer does, if
      one starts, and of the drain of its flush. */
  lemma DeliveryIsTheLoops(n: State, what: Announcement, origin: Ticks, p: Path, written: Ticks, flushed: Ticks,
                           own: Bytes, wall: int, steady: int)
    ensures var m, torrent := AddFile(what, origin, p), Torrent(what.content, p);
            var got, out := Receive(n, m, own, wall, steady), Act(n, m).1;
            Settle.Delivered(n, what, origin, p, written, flushed) ==
            if out.Made? && !out.alreadyHeld then
              Drained(if torrent in got.session then got.(disk := got.disk[p := written]) else got,
                      [Flush(torrent, flushed)])
            else got
  {
    var m := AddFile(what, origin, p);
    SameForAll(n, m, own, wall, steady);
    var got := Receive(n, m, [], 0, 0);
    SameForAll(n, m, [], 0, 0);
    TransferIsDrained(got, p, what.content, written, flushed);
    hide Receive, Drained, Act, Settle.Transferred;
  }

  lemma StepExplains(l: Loop, e: Event, own: Bytes, fileOf: Hash -> Path)
    requires Explained(l) && Enabled(l, e, fileOf)
    ensures Explained(After(l, e, own))
  {
    hide Receive, Drained, Changed, AfterRound, Serves;
    match e
    case Drains(flushes) => DrainKeeps(l.n, flushes);
    case Receives(m, wall, steady) => ReceiveExplains(l.n, m, own, wall, steady);
    case GoesRound(due, now) => RoundKeepsTree(l.n, due, now);
    case UserWrites(p, at) => assert Missing(After(l, e, own).n) <= Missing(l.n);
    case TransferWrites(p, at, _) => assert Missing(After(l, e, own).n) <= Missing(l.n);
    case UserDeletes(p) => assert Missing(After(l, e, own).n) <= Missing(l.n) + {p};
    case Relists(_, _) => assert l.dirty ==> Missing(After(l, e, own).n) == {};
    case ReceivesNothing =>
  }

  lemma RoundKeepsTree(n: State, due: bool, now: int)
    ensures AfterRound(n, due, now) == n.(peers := AfterRound(n, due, now).peers, pending := AfterRound(n, due, now).pending)
  {
  }

  // ---- What a listing leaves ----

  /** After a listing it is the disk; a snapshot stands while its file does; and a tombstone, as the
      changes leave it, stands for an hour. */
  lemma RelistedExactly(n: State, noticed: Ticks, wall: int, p: Path)
    ensures var after, graves := Relisted(n, noticed, wall), Changed(n, noticed).1;
            && after == n.(former := n.disk, written := after.written, graves := after.graves)
            && (p in after.written <==> p in n.written && p in n.disk)
            && (p in after.written ==> after.written[p] == n.written[p])
            && (p in after.graves <==> p in graves && wall - graves[p] <= 3_600_000_000_000)
            && (p in after.graves ==> after.graves[p] == graves[p])
  {
    hide Changed, Unexpired;
    ExpiresExactly(Changed(n, noticed).1, wall, p);
  }

  // ---- What is announced removed ----

  lemma {:induction false} RunExplains(l: Loop, es: seq<Event>, l': Loop, own: Bytes, fileOf: Hash -> Path)
    requires Explained(l) && Run(l, es, l', own, fileOf)
    ensures Explained(l')
    decreases |es|
  {
    hide Explained, After, Enabled;
    if |es| > 0 {
      StepExplains(l, es[0], own, fileOf);
      RunExplains(After(l, es[0], own), es[1..], l', own, fileOf);
    }
  }

  /** In every run from a start, what a listing announces removed is exactly what the user deleted
      since the listing before, is still gone and is not already remembered deleted. What a peer
      had deleted is never announced again. */
  lemma OnlyTheUsersDeletionsAreAnnounced(
      disk: TimeMap, es: seq<Event>, l: Loop, own: Bytes, fileOf: Hash -> Path, noticed: Ticks)
    requires Run(Booted(disk), es, l, own, fileOf) && l.phase.Relisting?
    ensures Changed(l.n, noticed).0.removed.Keys == (l.gone * Missing(l.n)) - l.n.graves.Keys
    ensures !l.dirty ==> Changed(l.n, noticed).0.removed.Keys == {}
  {
    RunExplains(Booted(disk), es, l, own, fileOf);
    hide Run, Changed, LocalChanges.Announced;
    var removed := Changed(l.n, noticed).0.removed.Keys;
    forall p
      ensures p in removed <==> p in Missing(l.n) && p !in l.n.graves
    {
      RemovedExactly(l.n, noticed, p);
    }
    assert removed == Missing(l.n) - l.n.graves.Keys;
    assert removed <= l.gone;
  }

  lemma RemovedExactly(n: State, noticed: Ticks, p: Path)
    ensures p in Changed(n, noticed).0.removed <==> p in Missing(n) && p !in n.graves
  {
    LocalChanges.AnnouncedExactly(n.former, n.disk, n.written, n.graves, noticed, p);
  }

  /** The order of the loop matters: a deletion and a create that outlives it, received with no
      listing in between, would make the next listing announce the removal of a file nobody here
      deleted and the peers have just been given. */
  lemma TwoMessagesAtOnceWouldRemove(
      n: State, p: Path, deleted: Ticks, what: Announcement, origin: Ticks, own: Bytes, noticed: Ticks)
    requires p in n.former && deleted <= origin && (p in n.graves ==> n.graves[p] <= origin)
    ensures var first := Receive(n, RemoveFile(p, deleted), own, 0, 0);
            var second := Receive(first, AddFile(what, origin, p), own, 0, 0);
            p in Changed(second, noticed).0.removed
  {
    hide Receive;
    RemoveLeaves(n, p, deleted, own);
    var first := Receive(n, RemoveFile(p, deleted), own, 0, 0);
    CreateStarts(first, p, what, origin, own);
    RemovedExactly(Receive(first, AddFile(what, origin, p), own, 0, 0), noticed, p);
  }

  /** A create for a file that is not there waits for its transfer before it touches the listing. */
  lemma CreateStarts(n: State, p: Path, what: Announcement, origin: Ticks, own: Bytes)
    requires p !in n.disk && (p in n.graves ==> n.graves[p] <= origin)
    requires forall t :: t in n.session ==> t.path != p
    ensures var after := Receive(n, AddFile(what, origin, p), own, 0, 0);
            after.former == n.former && after.disk == n.disk && p !in after.graves
  {
    hide Serving, Stamped;
    var m := AddFile(what, origin, p);
    assert Torrent(what.content, p) !in n.session;
    assert Act(n, m).1 == Made(p, origin, what.content, false);
  }

  // ---- What is seeded, cached and waiting ----

  /** The session serves exactly what was last applied for each path, which is also what the cache
      would announce again; and what waits to be repaired waits a pace apart. */
  ghost predicate InStep(n: State, fileOf: Hash -> Path) {
    && Kept(n.session, n.applied, n.announcements, fileOf)
    && Ladder.Spaced(n.pending)
  }

  ghost predicate Kept(session: set<Torrent>, applied: map<Path, Applied>,
                       announcements: map<Path, Announcement>, fileOf: Hash -> Path)
  {
    && announcements.Keys == applied.Keys
    && (forall p :: p in applied ==>
          announcements[p].content == applied[p].content && fileOf(applied[p].content) == p)
    && (forall t :: t in session <==> t.path in applied && applied[t.path].content == t.content)
  }

  lemma ApplyKeeps(session: set<Torrent>, applied: map<Path, Applied>,
                   announcements: map<Path, Announcement>, fileOf: Hash -> Path,
                   p: Path, origin: Ticks, what: Announcement)
    requires Kept(session, applied, announcements, fileOf) && fileOf(what.content) == p
    ensures Kept(Serving(session, p, what.content), applied[p := Applied(origin, what.content)],
                 announcements[p := what], fileOf)
  {
    var added := Torrent(what.content, p);
    var after := Serving(session, p, what.content);
    forall t
      ensures t in after <==> t == added || (t in session && t.path != p)
    {
    }
  }

  function SessionWithout(session: set<Torrent>, ps: set<Path>): (kept: set<Torrent>) {
    set t | t in session && t.path !in ps
  }

  lemma ForgetKeeps(session: set<Torrent>, applied: map<Path, Applied>,
                    announcements: map<Path, Announcement>, fileOf: Hash -> Path, ps: set<Path>)
    requires Kept(session, applied, announcements, fileOf)
    ensures Kept(SessionWithout(session, ps), applied - ps, announcements - ps, fileOf)
  {
  }

  /** An applied create, from the session to the waiting repairs. */
  lemma CreateLeaves(n: State, p: Path, what: Announcement, origin: Ticks, own: Bytes, wall: int, steady: int)
    ensures var m := AddFile(what, origin, p);
            var after, out := Receive(n, m, own, wall, steady), Act(n, m).1;
            if out.Made? then
              && after.session == Serving(n.session, p, what.content)
              && after.applied == n.applied[p := Applied(origin, what.content)]
              && after.announcements == n.announcements[p := what]
              && after.pending == n.pending - {p}
            else
              && after.session == n.session && after.applied == n.applied
              && after.announcements == n.announcements && after.pending == n.pending
  {
    hide Serving, Wins, Stamped;
    var (acted, out) := Act(n, AddFile(what, origin, p));
    if out.Made? {
      StampKeeps(acted.(origins := acted.origins[p := origin]), p, origin);
    }
  }

  lemma DroppedStaySpaced(pending: Ladder.Moments, ps: set<Path>)
    requires Ladder.Spaced(pending)
    ensures Ladder.Spaced(pending - ps)
  {
  }

  lemma DigestKeepsStep(n: State, held: Bytes, graves: Bytes, wall: int, steady: int, fileOf: Hash -> Path)
    requires InStep(n, fileOf)
    ensures InStep(DigestRead(n, held, graves, wall, steady), fileOf)
  {
    hide Ladder.Spaced, Kept, Ladder.Arm, Gaps, Adoptable, Decoded;
    var killed := Adoptable(Decoded(graves), n.former, n.graves, wall).Keys * n.former.Keys;
    var adopted := Adopt(n, Decoded(graves), wall);
    ForgetKeeps(n.session, n.applied, n.announcements, fileOf, killed);
    assert adopted.session == SessionWithout(n.session, killed);
    DroppedStaySpaced(n.pending, killed);
    Ladder.ArmKeeps(adopted.pending, Gaps(adopted.former, adopted.graves, Decoded(held)), steady);
  }

  lemma RemoveKeepsStep(n: State, p: Path, deleted: Ticks, own: Bytes, fileOf: Hash -> Path)
    requires InStep(n, fileOf)
    ensures InStep(Receive(n, RemoveFile(p, deleted), own, 0, 0), fileOf)
  {
    hide Ladder.Spaced, Kept;
    ForgetKeeps(n.session, n.applied, n.announcements, fileOf, {p});
    DroppedStaySpaced(n.pending, {p});
    var after := Receive(n, RemoveFile(p, deleted), own, 0, 0);
    assert after.session == SessionWithout(n.session, {p});
    assert after.applied == n.applied - {p} && after.announcements == n.announcements - {p};
  }

  lemma ReceiveKeepsStep(n: State, m: Incoming, own: Bytes, wall: int, steady: int, fileOf: Hash -> Path)
    requires InStep(n, fileOf) && (m.AddFile? ==> fileOf(m.what.content) == m.path)
    ensures InStep(Receive(n, m, own, wall, steady), fileOf)
  {
    hide Ladder.Spaced, Kept;
    match m
    case RemoveFile(p, deleted) =>
      hide Receive;
      RemoveKeepsStep(n, p, deleted, own, fileOf);
      SameForAll(n, m, own, wall, steady);
    case AddFile(what, origin, p) =>
      hide Receive, Serving;
      CreateLeaves(n, p, what, origin, own, wall, steady);
      if Act(n, m).1.Made? {
        ApplyKeeps(n.session, n.applied, n.announcements, fileOf, p, origin, what);
        DroppedStaySpaced(n.pending, {p});
      }
    case DigestOf(held, graves) =>
      hide DigestRead;
      DigestKeepsStep(n, held, graves, wall, steady, fileOf);
    case StateOf(_, _) =>
  }

  lemma RoundKeepsStep(n: State, due: bool, now: int, fileOf: Hash -> Path)
    requires InStep(n, fileOf)
    ensures InStep(AfterRound(n, due, now), fileOf)
  {
    hide Kept;
    var sent, after := Repairs.NoGapIsLost(n.pending, n.former.Keys, n.announcements.Keys, now);
  }

  lemma StepKeepsStep(l: Loop, e: Event, own: Bytes, fileOf: Hash -> Path)
    requires InStep(l.n, fileOf) && Enabled(l, e, fileOf)
    ensures InStep(After(l, e, own).n, fileOf)
  {
    hide Receive, Drained, Changed, AfterRound, Serves, Kept, Ladder.Spaced;
    match e
    case Drains(flushes) => DrainKeeps(l.n, flushes);
    case Receives(m, wall, steady) => ReceiveKeepsStep(l.n, m, own, wall, steady, fileOf);
    case GoesRound(due, now) => RoundKeepsStep(l.n, due, now, fileOf);
    case UserWrites(_, _) =>
    case UserDeletes(_) =>
    case TransferWrites(_, _, _) =>
    case Relists(_, _) =>
    case ReceivesNothing =>
  }

  /** In every run from a start, what is announced from the cache is what was last applied, and the
      session serves that and nothing else: at most one torrent for a path, and none for a path
      with nothing applied. */
  lemma {:induction false} RunStaysInStep(l: Loop, es: seq<Event>, l': Loop, own: Bytes, fileOf: Hash -> Path)
    requires InStep(l.n, fileOf) && Run(l, es, l', own, fileOf)
    ensures InStep(l'.n, fileOf)
    decreases |es|
  {
    hide InStep, After, Enabled;
    if |es| > 0 {
      StepKeepsStep(l, es[0], own, fileOf);
      RunStaysInStep(After(l, es[0], own), es[1..], l', own, fileOf);
    }
  }

  function TorrentsAt(n: State, p: Path): (found: set<Torrent>) {
    set t | t in n.session && t.path == p
  }

  /** After any run, a create that is applied leaves its own content as the one torrent at the path,
      a deletion leaves none, and whatever arrives, no path ever has two. */
  lemma OneTorrentAPath(
      disk: TimeMap, es: seq<Event>, l: Loop, own: Bytes, fileOf: Hash -> Path,
      m: Incoming, wall: int, steady: int, p: Path)
    requires Run(Booted(disk), es, l, own, fileOf) && (m.AddFile? ==> fileOf(m.what.content) == m.path)
    ensures var after := Receive(l.n, m, own, wall, steady);
            && (TorrentsAt(after, p) ==
                if p in after.applied then {Torrent(after.applied[p].content, p)} else {})
            && (p in after.announcements <==> p in after.applied)
            && (p in after.applied ==> after.announcements[p].content == after.applied[p].content)
            && (m.AddFile? && Act(l.n, m).1.Made? && m.path == p ==>
                TorrentsAt(after, p) == {Torrent(m.what.content, p)} && p !in after.pending)
            && (m.RemoveFile? && m.path == p ==>
                TorrentsAt(after, p) == {} && p !in after.applied && p !in after.pending && p !in after.disk)
  {
    RunStaysInStep(Booted(disk), es, l, own, fileOf);
    ReceiveKeepsStep(l.n, m, own, wall, steady, fileOf);
    var after := Receive(l.n, m, own, wall, steady);
    hide Receive, Ladder.Spaced, Run;
    if p in after.applied {
      assert Torrent(after.applied[p].content, p) in after.session;
    }
    match m
    case AddFile(what, origin, path) => CreateLeaves(l.n, path, what, origin, own, wall, steady);
    case RemoveFile(path, deleted) =>
      RemoveLeaves(l.n, path, deleted, own);
      SameForAll(l.n, m, own, wall, steady);
    case StateOf(_, _) =>
    case DigestOf(_, _) =>
  }
}
