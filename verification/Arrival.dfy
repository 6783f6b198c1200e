/** What becomes of a file a peer announced, over the runs of the loop that let it arrive. */
module Arrival {
  import opened Paths
  import opened Decimal
  import opened Wire
  import opened Node
  import opened Effects
  import opened SyncLoop
  import LocalChanges
  import Settle

  /** An event that is about other paths: nobody writes or deletes the file, nothing is flushed for it
      and no message changes it. */
  ghost predicate Spares(n: State, e: Event, p: Path) {
    match e
    case UserWrites(q, _) => q != p
    case UserDeletes(q) => q != p
    case TransferWrites(q, _, _) => q != p
    case Drains(flushes) => forall i :: 0 <= i < |flushes| ==> flushes[i].torrent.path != p
    case Receives(m, wall, _) =>
      && (m.AddFile? ==> m.path != p) && (m.RemoveFile? ==> m.path != p)
      && (m.DigestOf? ==> !IsKilled(n, Decoded(m.graves), wall, p))
    case _ => true
  }

  /** The same, but for the writes of the transfer. */
  ghost predicate SparesOrWrites(n: State, e: Event, p: Path) {
    Spares(n, e, p) || (e.TransferWrites? && e.path == p)
  }

  ghost predicate AllSpare(l: Loop, es: seq<Event>, p: Path, own: Bytes)
    decreases |es|
  {
    |es| == 0 || (Spares(l.n, es[0], p) && AllSpare(After(l, es[0], own), es[1..], p, own))
  }

  ghost predicate AllSpareOrWrite(l: Loop, es: seq<Event>, p: Path, own: Bytes)
    decreases |es|
  {
    |es| == 0 || (SparesOrWrites(l.n, es[0], p) && AllSpareOrWrite(After(l, es[0], own), es[1..], p, own))
  }

  // ---- What sparing events keep ----

  /** The path's torrent and its waiting time. */
  ghost predicate SameWait(n: State, after: State, p: Path) {
    && (forall t: Torrent :: t.path == p ==> (t in after.session <==> t in n.session))
    && (p in after.origins <==> p in n.origins) && (p in n.origins ==> after.origins[p] == n.origins[p])
  }

  ghost predicate SameFile(n: State, after: State, p: Path) {
    (p in after.disk <==> p in n.disk) && (p in n.disk ==> after.disk[p] == n.disk[p])
  }

  /** The file is as it was last seen, announced and left by its transfer. */
  ghost predicate AtRest(n: State, p: Path, at: Ticks) {
    && p in n.disk && n.disk[p] == at && p in n.former && n.former[p] == at
    && p in n.written && n.written[p] == at
  }

  ghost predicate Kept(n: State, after: State, p: Path) {
    && SameWait(n, after, p) && SameFile(n, after, p)
    && forall at: Ticks :: AtRest(n, p, at) ==> AtRest(after, p, at)
  }

  lemma KeptTransitive(a: State, b: State, c: State, p: Path)
    requires Kept(a, b, p) && Kept(b, c, p)
    ensures Kept(a, c, p)
  {
  }

  lemma KeptSelf(n: State, p: Path)
    ensures Kept(n, n, p)
  {
  }

  lemma FlushKeeps(n: State, f: Flush, p: Path)
    requires f.torrent.path != p
    ensures Kept(n, Flushed(n, f), p)
  {
    hide Flushed, Kept;
    FlushExactly(n, f);
    KeptSelf(n, p);
    WaitDropped(n, f.torrent.path, p);
    if f.torrent.path in n.disk {
      var q := f.torrent.path;
      StampedElsewhere(n, q, if q in n.origins then n.origins[q] else n.disk[q], p);
    }
  }

  lemma WaitDropped(n: State, q: Path, p: Path)
    requires q != p
    ensures Kept(n, n.(origins := n.origins - {q}), p)
  {
  }

  /** A file stamped, at another path. */
  lemma StampedElsewhere(n: State, q: Path, time: Ticks, p: Path)
    requires q != p
    ensures Kept(n, n.(disk := n.disk[q := time], former := n.former[q := time], written := n.written[q := time],
                       origins := n.origins - {q}), p)
  {
    PutElsewhere(n.disk, q, time, p);
    PutElsewhere(n.former, q, time, p);
    PutElsewhere(n.written, q, time, p);
  }

  /** What decides whether something is kept, looked at in two steps: the files, and the rest. */
  lemma KeptInSteps(n: State, mid: State, after: State, p: Path)
    requires Kept(n, mid, p)
    requires after.disk == mid.disk && after.former == mid.former && after.written == mid.written
    requires SameWait(n, after, p)
    ensures Kept(n, after, p)
  {
  }

  lemma SessionElsewhere(session: set<Torrent>, q: Path, content: Hash, p: Path)
    requires q != p
    ensures forall t: Torrent :: t.path == p ==> (t in Serving(session, q, content) <==> t in session)
  {
    forall t: Torrent | t.path == p
      ensures t in Serving(session, q, content) <==> t in session
    {
      ServingExactly(session, q, content, t);
    }
  }

  lemma {:induction false} DrainKeepsOthers(n: State, flushes: seq<Flush>, p: Path)
    requires forall i :: 0 <= i < |flushes| ==> flushes[i].torrent.path != p
    ensures Kept(n, Drained(n, flushes), p)
    decreases |flushes|
  {
    hide Flushed, Kept;
    if |flushes| == 0 {
      KeptSelf(n, p);
    } else {
      FlushKeeps(n, flushes[0], p);
      DrainKeepsOthers(Flushed(n, flushes[0]), flushes[1..], p);
      KeptTransitive(n, Flushed(n, flushes[0]), Drained(n, flushes), p);
    }
  }

  lemma CreateKeepsOthers(n: State, what: Announcement, origin: Ticks, q: Path, own: Bytes, wall: int, steady: int, p: Path)
    requires q != p
    ensures Kept(n, Receive(n, AddFile(what, origin, q), own, wall, steady), p)
  {
    hide Receive, Serving;
    if q in n.graves && n.graves[q] > origin {
      DeletedCreateExactly(n, what, origin, q, own, wall, steady);
    } else if !IsNewest(n, what, origin, q) {
      OldCreateExactly(n, what, origin, q, own, wall, steady);
    } else {
      NewCreateExactly(n, what, origin, q, own, wall, steady);
      SessionElsewhere(n.session, q, what.content, p);
      StampedElsewhere(n, q, origin, p);
      KeptSelf(n, p);
      var after := Receive(n, AddFile(what, origin, q), own, wall, steady);
      hide Kept;
      if Torrent(what.content, q) in n.session && q in n.disk {
        var stamped := n.(disk := n.disk[q := origin], former := n.former[q := origin],
                          written := n.written[q := origin], origins := n.origins - {q});
        KeptInSteps(n, stamped, after, p);
      } else {
        KeptInSteps(n, n, after, p);
      }
    }
  }

  lemma DigestKeepsUnkilled(n: State, held: Bytes, graves: Bytes, own: Bytes, wall: int, steady: int, p: Path)
    requires !IsKilled(n, Decoded(graves), wall, p)
    ensures Kept(n, Receive(n, DigestOf(held, graves), own, wall, steady), p)
  {
    hide Receive, Adopt, IsKilled, Decoded;
    AdoptExactly(n, Decoded(graves), wall);
    DigestExactly(n, held, graves, own, wall, steady);
  }

  lemma ReceiveKeepsOthers(n: State, m: Incoming, own: Bytes, wall: int, steady: int, p: Path)
    requires Spares(n, Receives(m, wall, steady), p)
    ensures Kept(n, Receive(n, m, own, wall, steady), p)
  {
    hide Receive, Kept, Decoded;
    match m
    case RemoveFile(q, deleted) => RemoveKeepsOthers(n, q, deleted, own, wall, steady, p);
    case AddFile(what, origin, q) => CreateKeepsOthers(n, what, origin, q, own, wall, steady, p);
    case DigestOf(held, graves) => DigestKeepsUnkilled(n, held, graves, own, wall, steady, p);
    case StateOf(root, endpoint) =>
      StateExactly(n, root, endpoint, own, wall, steady);
      PeersDoNotMatter(n, Receive(n, m, own, wall, steady), p);
  }

  lemma RemoveKeepsOthers(n: State, q: Path, deleted: Ticks, own: Bytes, wall: int, steady: int, p: Path)
    requires q != p
    ensures Kept(n, Receive(n, RemoveFile(q, deleted), own, wall, steady), p)
  {
    hide Receive;
    RemoveExactly(n, q, deleted, own, wall, steady);
  }

  lemma PeersDoNotMatter(n: State, after: State, p: Path)
    requires after == n.(peers := after.peers)
    ensures Kept(n, after, p)
  {
  }

  lemma ListingKeeps(n: State, noticed: Ticks, wall: int, p: Path)
    ensures Kept(n, Relisted(n, noticed, wall), p)
  {
    hide Relisted;
    RelistedExactly(n, noticed, wall, p);
  }

  lemma SparedIsKept(l: Loop, e: Event, p: Path, own: Bytes)
    requires Spares(l.n, e, p)
    ensures Kept(l.n, After(l, e, own).n, p)
  {
    hide Receive, Drained, Relisted, AfterRound, Decoded;
    match e
    case Drains(flushes) => DrainKeepsOthers(l.n, flushes, p);
    case Receives(m, wall, steady) => ReceiveKeepsOthers(l.n, m, own, wall, steady, p);
    case Relists(noticed, wall) => ListingKeeps(l.n, noticed, wall, p);
    case GoesRound(due, now) => RoundKeepsTree(l.n, due, now);
    case _ =>
  }

  lemma {:induction false} RunKeeps(l: Loop, es: seq<Event>, l': Loop, p: Path, own: Bytes, fileOf: Hash -> Path)
    requires Run(l, es, l', own, fileOf) && AllSpare(l, es, p, own)
    ensures Kept(l.n, l'.n, p)
    decreases |es|
  {
    hide Kept, After, Enabled, Spares;
    if |es| == 0 {
      KeptSelf(l.n, p);
    } else {
      var next := After(l, es[0], own);
      SparedIsKept(l, es[0], p, own);
      RunKeeps(next, es[1..], l', p, own, fileOf);
      KeptTransitive(l.n, next.n, l'.n, p);
    }
  }

  lemma {:induction false} RunWaits(l: Loop, es: seq<Event>, l': Loop, p: Path, own: Bytes, fileOf: Hash -> Path)
    requires Run(l, es, l', own, fileOf) && AllSpareOrWrite(l, es, p, own)
    ensures SameWait(l.n, l'.n, p)
    decreases |es|
  {
    hide SameWait, After, Enabled, Spares;
    if |es| == 0 {
      WaitsOn(l.n, l.n, p);
    } else {
      var next := After(l, es[0], own);
      if Spares(l.n, es[0], p) {
        SparedIsKept(l, es[0], p, own);
      } else {
        WriteWaits(l, es[0], p, own);
      }
      RunWaits(next, es[1..], l', p, own, fileOf);
      WaitTransitive(l.n, next.n, l'.n, p);
    }
  }

  lemma WaitsOn(n: State, after: State, p: Path)
    requires after.session == n.session && after.origins == n.origins
    ensures SameWait(n, after, p)
  {
  }

  lemma WriteWaits(l: Loop, e: Event, p: Path, own: Bytes)
    requires e.TransferWrites?
    ensures SameWait(l.n, After(l, e, own).n, p)
  {
  }

  lemma WaitTransitive(a: State, b: State, c: State, p: Path)
    requires SameWait(a, b, p) && SameWait(b, c, p)
    ensures SameWait(a, c, p)
  {
  }

  // ---- A file arrives ----

  /** A drain that holds the one flush of this path, noticed no earlier than the file was written. */
  lemma {:induction false} DrainLands(n: State, flushes: seq<Flush>, k: nat, p: Path)
    requires k < |flushes| && flushes[k].torrent.path == p
    requires forall i :: 0 <= i < |flushes| && i != k ==> flushes[i].torrent.path != p
    requires flushes[k].torrent in n.session && p in n.disk && n.disk[p] <= flushes[k].at && p in n.origins
    ensures AtRest(Drained(n, flushes), p, n.origins[p])
    decreases |flushes|
  {
    var f := flushes[0];
    var next := Flushed(n, f);
    if k == 0 {
      FlushExactly(n, f);
      hide Flushed;
      assert AtRest(next, p, n.origins[p]);
      DrainKeepsOthers(next, flushes[1..], p);
    } else {
      FlushKeeps(n, f, p);
      hide Flushed;
      assert flushes[1..][k - 1] == flushes[k];
      DrainLands(next, flushes[1..], k - 1, p);
    }
  }

  /** What follows a create that has to be transferred: while it is written, its last write, what goes on
      till it is flushed, the drain of its flush, and what goes on till the tree is listed. */
  datatype Course = Course(
    writing: seq<Event>, written: Ticks, seen: bool,
    waiting: seq<Event>, flushes: seq<Flush>, which: nat,
    resting: seq<Event>)

  datatype Stations = Stations(received: Loop, last: Loop, flushed: Loop, listed: Loop)

  ghost predicate Follows(s: Stations, c: Course, p: Path, content: Hash, own: Bytes, fileOf: Hash -> Path) {
    var wrote := After(s.last, TransferWrites(p, c.written, c.seen), own);
    var drained := After(s.flushed, Drains(c.flushes), own);
    && Run(s.received, c.writing, s.last, own, fileOf) && AllSpareOrWrite(s.received, c.writing, p, own)
    && Run(wrote, c.waiting, s.flushed, own, fileOf) && AllSpare(wrote, c.waiting, p, own)
    && c.which < |c.flushes| && c.flushes[c.which].torrent == Torrent(content, p)
    && c.written <= c.flushes[c.which].at
    && (forall i :: 0 <= i < |c.flushes| && i != c.which ==> c.flushes[i].torrent.path != p)
    && Run(drained, c.resting, s.listed, own, fileOf) && AllSpare(drained, c.resting, p, own)
  }

  /** A create that is applied and has to be transferred. */
  ghost predicate IsAwaited(n: State, what: Announcement, origin: Ticks, p: Path) {
    && (p in n.graves ==> n.graves[p] <= origin) && IsNewest(n, what, origin, p)
    && !(Torrent(what.content, p) in n.session && p in n.disk) && Settle.Own(n.session, p, what.content)
  }

  lemma ReceivedWaits(n: State, what: Announcement, origin: Ticks, p: Path, own: Bytes, wall: int, steady: int)
    requires IsAwaited(n, what, origin, p)
    ensures var after := Receive(n, AddFile(what, origin, p), own, wall, steady);
            Torrent(what.content, p) in after.session && p in after.origins && after.origins[p] == origin
  {
    hide Receive, Serving;
    NewCreateExactly(n, what, origin, p, own, wall, steady);
    ServingExactly(n.session, p, what.content, Torrent(what.content, p));
    if u :| u in n.session && u.content == what.content {
      assert u == Torrent(what.content, p);
    }
  }

  /** In every run of the loop in which a create that has to be transferred is let to arrive, its file ends
      under the announced time on disk, in the listing and in the snapshot, and the next listing
      announces nothing of its path. */
  lemma CreateComesToRest(l: Loop, what: Announcement, origin: Ticks, p: Path, wall: int, steady: int,
                          s: Stations, c: Course, own: Bytes, fileOf: Hash -> Path, noticed: Ticks)
    requires IsAwaited(l.n, what, origin, p)
    requires s.received == After(l, Receives(AddFile(what, origin, p), wall, steady), own)
    requires Follows(s, c, p, what.content, own, fileOf)
    ensures AtRest(s.listed.n, p, origin)
    ensures var diff := Changed(s.listed.n, noticed).0; p !in diff.created && p !in diff.modified && p !in diff.removed
    ensures AtRest(Relisted(s.listed.n, noticed, wall), p, origin)
  {
    hide Receive, Drained, Changed, Relisted, Run, AllSpare, AllSpareOrWrite, Kept;
    ReceivedWaits(l.n, what, origin, p, own, wall, steady);
    RunWaits(s.received, c.writing, s.last, p, own, fileOf);
    var wrote := After(s.last, TransferWrites(p, c.written, c.seen), own);
    RunKeeps(wrote, c.waiting, s.flushed, p, own, fileOf);
    KeptIs(wrote.n, s.flushed.n, p);
    DrainLands(s.flushed.n, c.flushes, c.which, p);
    var drained := After(s.flushed, Drains(c.flushes), own);
    RunKeeps(drained, c.resting, s.listed, p, own, fileOf);
    KeptIs(drained.n, s.listed.n, p);
    var n := s.listed.n;
    NothingAnnounced(n, noticed, p, origin);
    ListingKeeps(n, noticed, wall, p);
    KeptIs(n, Relisted(n, noticed, wall), p);
  }

  lemma KeptIs(n: State, after: State, p: Path)
    requires Kept(n, after, p)
    ensures SameWait(n, after, p) && SameFile(n, after, p)
    ensures forall at: Ticks :: AtRest(n, p, at) ==> AtRest(after, p, at)
  {
  }

  lemma NothingAnnounced(n: State, noticed: Ticks, p: Path, at: Ticks)
    requires AtRest(n, p, at)
    ensures var diff := Changed(n, noticed).0; p !in diff.created && p !in diff.modified && p !in diff.removed
  {
    LocalChanges.AnnouncedExactly(n.former, n.disk, n.written, n.graves, noticed, p);
  }
}
