/** The daemon's memory as an object whose operations change it in place, each held to what `Node`
    says becomes of the state. */
module Daemon {
  import opened Paths
  import opened Decimal
  import opened Wire
  import opened Reconcile
  import opened Ladder
  import opened Node
  import Cadence
  import LocalChanges
  import Maps
  import Repairs
  import RootHash
  import Settle
  import SyncLoop

  class Replica {
    var disk: TimeMap
    var former: TimeMap
    var graves: TimeMap
    var written: TimeMap
    var origins: TimeMap
    var applied: map<Path, Applied>
    var announcements: map<Path, Announcement>
    var pending: Moments
    var session: set<Torrent>
    var peers: map<Bytes, Heard>
    var lastState: int
    var lastChange: int

    function Now(): (state: State)
      reads this
    {
      State(disk, former, graves, written, origins, applied, announcements, pending, session, peers)
    }

    /** The two moments the rounds go by. */
    function Rounds(): (rounds: Cadence.Clocks)
      reads this
    {
      Cadence.Clocks(lastState, lastChange)
    }

    /** A daemon starts by listing the directory and remembers nothing else. */
    constructor (disk: TimeMap, now: int)
      ensures Now() == SyncLoop.Booted(disk).n && Rounds() == Cadence.Clocks(now, now)
    {
      lastState, lastChange := now, now;
      this.disk, former := disk, disk;
      graves, written, origins := map[], map[], map[];
      applied, announcements, pending, peers := map[], map[], map[], map[];
      session := {};
    }

    // ---- Tombstones ----

    method Mark(path: Path, deleted: Ticks)
      modifies this
      ensures Rounds() == old(Rounds())
      ensures Now() == old(Now()).(graves := Marked(old(graves), path, deleted))
    {
      if path !in graves {
        graves := graves[path := deleted];
      } else if graves[path] < deleted {
        graves := graves[path := deleted];
      }
    }

    method Expire(now: int)
      modifies this
      ensures Rounds() == old(Rounds())
      ensures Now() == old(Now()).(graves := Unexpired(old(graves), now))
    {
      graves := Maps.EraseIf(graves, (_, at) => now - at > TTL);
      assert graves == Unexpired(old(graves), now);
    }

    // ---- The repairs taken on ----

    method TakeOn(missing: seq<Path>, now: int)
      modifies this
      ensures Rounds() == old(Rounds())
      ensures Now() == old(Now()).(pending := Arm(old(pending), missing, now))
    {
      pending := ArmBehind(pending, missing, now);
    }

    /** Hands over what is ready, and no longer has it waiting. */
    method Due(now: int) returns (ready: seq<Path>)
      modifies this
      ensures Rounds() == old(Rounds())
      ensures ready == Ready(old(pending), now)
      ensures Now() == old(Now()).(pending := Waiting(old(pending), now))
    {
      ready, pending := TakeReady(pending, now);
    }

    // ---- The session ----

    method Erase(path: Path)
      modifies this
      ensures Rounds() == old(Rounds())
      ensures Now() == Erased(old(Now()), path)
    {
      var found := At(session, path);
      ghost var before := session;
      while found != {}
        invariant Rounds() == old(Rounds())
        invariant Now() == old(Now()).(session := session)
        invariant found <= session <= before && forall t :: t in found ==> t.path == path
        invariant forall t :: t in before && t !in session ==> t.path == path
        invariant forall t :: t in session && t !in found ==> t.path != path
      {
        var t :| t in found;
        found, session := found - {t}, session - {t};
      }
      assert session == set t | t in before && t.path != path;
      disk := disk - {path};
    }

    /** Answers whether what is announced is served already. */
    method RemoveStaleTorrents(path: Path, content: Hash) returns (held: bool)
      modifies this
      ensures Rounds() == old(Rounds())
      ensures Now() == old(Now()).(session := WithoutStale(old(session), path, content))
      ensures held == (Torrent(content, path) in old(session))
    {
      held := false;
      var found := At(session, path);
      ghost var before := session;
      while found != {}
        invariant Rounds() == old(Rounds())
        invariant Now() == old(Now()).(session := session)
        invariant found <= before && forall t :: t in found ==> t.path == path
        invariant forall t :: t in session <==> t in before && (t.path != path || t.content == content || t in found)
        invariant held == (Torrent(content, path) in before - found)
      {
        var t :| t in found;
        found := found - {t};
        if t.content == content {
          held := true;
        } else {
          session := session - {t};
        }
      }
      assert session == WithoutStale(before, path, content);
    }

    /** A torrent the session already has is handed back as it is. */
    method AddTorrent(path: Path, content: Hash)
      modifies this
      ensures Rounds() == old(Rounds())
      ensures Now() == old(Now()).(session := WithTorrent(old(session), path, content))
    {
      if !exists t :: t in session && t.content == content {
        session := session + {Torrent(content, path)};
      }
    }

    // ---- Messages ----

    method Act(m: Incoming) returns (out: Outcome)
      modifies this
      ensures Rounds() == old(Rounds())
      ensures (Now(), out) == Node.Act(old(Now()), m)
    {
      hide Erased, Marked, WithoutStale, WithTorrent, Serving, Wins;
      match m
      case RemoveFile(path, deleted) =>
        Erase(path);
        ErasedLeaves(old(Now()), path);
        Mark(path, deleted);
        out := Deleted(path);
      case AddFile(what, origin, path) =>
        if path in graves {
          if Beats(graves[path], origin) {
            return Ignored;
          }
        }
        graves := graves - {path};
        if !Wins(Now(), path, origin, what.content) {
          return Ignored;
        }
        var held := RemoveStaleTorrents(path, what.content);
        AddTorrent(path, what.content);
        ServingIsBoth(old(session), path, what.content);
        out := Made(path, origin, what.content, held);
      case StateOf(_, _) => out := NothingToDo;
      case DigestOf(_, _) => out := NothingToDo;
    }

    method Forget(path: Path)
      modifies this
      ensures Rounds() == old(Rounds())
      ensures Now() == Forgotten(old(Now()), {path})
    {
      announcements := announcements - {path};
      applied := applied - {path};
      pending := pending - {path};
    }

    method StampAndRemember(path: Path, writtenBy: Ticks)
      modifies this
      ensures Rounds() == old(Rounds())
      ensures Now() == Stamped(old(Now()), path, writtenBy)
    {
      hide Stamped;
      if path !in disk {
        SyncLoop.StampsNothing(Now(), path, writtenBy);
        return;
      }
      if disk[path] > writtenBy {
        Settle.EditSurvivesStamp(Now(), path, writtenBy);
        origins := origins - {path};
        return;
      }
      SyncLoop.StampSets(Now(), path, writtenBy);
      if path in origins {
        disk := disk[path := origins[path]];
        origins := origins - {path};
      }
      var time := disk[path];
      written := written[path := time];
      former := former[path := time];
    }

    method DrainAlerts(flushes: seq<SyncLoop.Flush>)
      modifies this
      ensures Rounds() == old(Rounds())
      ensures Now() == SyncLoop.Drained(old(Now()), flushes)
    {
      hide Stamped;
      for i := 0 to |flushes|
        invariant Rounds() == old(Rounds())
        invariant SyncLoop.Drained(Now(), flushes[i..]) == SyncLoop.Drained(old(Now()), flushes)
      {
        assert flushes[i..][1..] == flushes[i + 1..];
        var f := flushes[i];
        if f.torrent in session {
          StampAndRemember(f.torrent.path, f.at);
        }
      }
    }

    method Adopt(theirs: TimeMap, now: int)
      modifies this
      ensures Rounds() == old(Rounds())
      ensures Now() == Node.Adopt(old(Now()), theirs, now)
    {
      hide Node.Adopt, Adoptable, Erased, Forgotten, Marked, AdoptedThrough, AdoptedOne, Sorted;
      var news := FindAdoptable(theirs, former, graves, now);
      ghost var before := Now();
      AdoptionEnds(before, theirs, now);
      var ks := Sorted(news.Keys);
      for i := 0 to |ks|
        invariant Rounds() == old(Rounds())
        invariant Now() == AdoptedThrough(before, news, Visited(ks, i))
      {
        var path := ks[i];
        AdoptionTurn(before, theirs, now, i);
        ghost var turn := Now();
        AdoptedOneIs(turn, path, news[path]);
        Mark(path, news[path]);
        if path in former {
          former := former - {path};
          Erase(path);
          Forget(path);
        }
      }
    }

    method ReadDigest(held: Bytes, deleted: Bytes, wall: int, steady: int)
      modifies this
      ensures Rounds() == old(Rounds())
      ensures Now() == DigestRead(old(Now()), held, deleted, wall, steady)
    {
      hide Node.Adopt, Adoptable, Gaps, Decoded, Arm;
      var theirs := Decode(held);
      var graves' := Decode(deleted);
      Adopt(graves', wall);
      var missing := FindGaps(former, graves, theirs);
      if missing == [] {
        NothingToArm(pending, steady);
      } else {
        TakeOn(missing, steady);
      }
    }

    method ReceiveOne(m: Incoming, own: Bytes, wall: int, steady: int)
      modifies this
      ensures Rounds() == old(Rounds())
      ensures Now() == Receive(old(Now()), m, own, wall, steady)
    {
      hide Node.Act, Stamped, DigestRead, Forgotten;
      var out := Act(m);
      ActTells(old(Now()), m);
      if m.RemoveFile? {
        Forget(m.path);
      }
      if out.Made? {
        origins := origins[out.path := out.origin];
        if out.alreadyHeld {
          StampAndRemember(out.path, out.origin);
        }
        announcements := announcements[out.path := m.what];
        applied := applied[out.path := Applied(out.origin, out.content)];
        pending := pending - {out.path};
      }
      if m.StateOf? && m.endpoint != own {
        peers := peers[m.endpoint := Heard(m.root, steady)];
      }
      if m.DigestOf? {
        ReadDigest(m.held, m.graves, wall, steady);
      }
    }

    // ---- Listing and publishing ----

    method ForgetSpentMarks(current: TimeMap, wall: int)
      modifies this
      ensures Rounds() == old(Rounds())
      ensures Now() == old(Now()).(
        written := (map p | p in old(written) && p in current :: old(written)[p]),
        graves := Unexpired(old(graves), wall))
    {
      ghost var before := written;
      written := Maps.EraseIf(written, (p, _) => p !in current);
      assert written == map p | p in before && p in current :: before[p];
      Expire(wall);
    }

    /** What the monitor woke the loop for is found, announced and made the listing. */
    method Relist(noticed: Ticks, wall: int) returns (sent: seq<LocalChanges.Publication>)
      modifies this
      ensures Rounds() == old(Rounds())
      ensures Now() == SyncLoop.Relisted(old(Now()), noticed, wall)
      ensures sent == LocalChanges.Outbound(SyncLoop.Changed(old(Now()), noticed).0, old(disk))
    {
      hide LocalChanges.Announced, LocalChanges.Outbound, Unexpired;
      var current := disk;
      var diff, tombstones := LocalChanges.FindChanges(former, current, written, graves, noticed);
      graves := tombstones;
      sent := LocalChanges.Send(diff, current);
      former := current;
      ForgetSpentMarks(former, wall);
    }

    method ForgetSilent(now: int)
      modifies this
      ensures Rounds() == old(Rounds())
      ensures Now() == old(Now()).(peers := Speaking(old(peers), now))
    {
      ghost var before := peers;
      peers := Maps.EraseIf(peers, (_, heard: Heard) => now - heard.at > PEER_SILENCE);
      assert peers == Speaking(before, now);
    }

    /** A round: where this tree stands, and its digest for one peer that stands elsewhere. */
    method GoRound(sha: Bytes -> Bytes, now: int) returns (root: Bytes, digest: Option<Digest>)
      modifies this
      ensures Rounds() == old(Rounds())
      ensures Now() == old(Now()).(peers := Speaking(old(peers), now))
      ensures root == RootHash.Root(sha, former, graves)
      ensures AsksOne(old(Now()), now, root, digest)
    {
      hide Encoded, Speaking;
      root := RootHash.Hash(sha, former, graves);
      ForgetSilent(now);
      var asked := Pick(peers, root);
      match asked
      case None => digest := None;
      case Some(to) =>
        var held := Encode(former);
        var deleted := Encode(graves);
        digest := Some(Digest(to, held, deleted));
    }

    /** Hands over the repairs that are due, rebuilding at most one announcement. */
    method PublishRepairs(now: int) returns (out: seq<Outgoing>)
      modifies this
      ensures Rounds() == old(Rounds())
      ensures Now() == old(Now()).(
        pending := Repairs.Published(old(pending), former.Keys, announcements.Keys, now))
      ensures Hands(old(Now()), now, out)
    {
      hide Ready, Waiting, Arm, Repairs.Rounded;
      ghost var before := Now();
      var ready := Due(now);
      ghost var listed, cached := former.Keys, announcements.Keys;
      ghost var sent: seq<Repairs.Answer> := [];
      var rebuilt, waiting := false, [];
      out := [];
      assert ready[0..] == ready;
      for i := 0 to |ready|
        invariant Rounds() == old(Rounds())
        invariant Now() == before.(pending := Waiting(old(pending), now))
        invariant Repairs.Rounded(ready[i..], listed, cached, Repairs.Round(sent, rebuilt, waiting))
                  == Repairs.Rounded(ready, listed, cached, Repairs.FRESH)
        invariant |out| == |sent| && forall j :: 0 <= j < |out| ==> Carries(before, sent[j], out[j])
      {
        var path := ready[i];
        NextRepair(ready, i, listed, cached, Repairs.Round(sent, rebuilt, waiting));
        if path !in former {
          continue;
        }
        if path in announcements {
          out := out + [Again(path, former[path], announcements[path].buffer)];
          sent := sent + [Repairs.Cached(path)];
          continue;
        }
        if rebuilt {
          waiting := waiting + [path];
          continue;
        }
        out := out + [Afresh(path, former[path])];
        sent := sent + [Repairs.Rebuilt(path)];
        rebuilt := true;
      }
      LastRepair(ready, listed, cached, Repairs.Round(sent, rebuilt, waiting));
      TakeOn(waiting, now);
    }

    // ---- One turn of the loop ----

    method ListIfDirty(dirty: bool, noticed: Ticks, wall: int, now: int) returns (changes: seq<LocalChanges.Publication>)
      modifies this
      ensures Rounds() == Cadence.Listed(old(Rounds()), Cadence.Tick(now, dirty, true))
      ensures Now() == if dirty then SyncLoop.Relisted(old(Now()), noticed, wall) else old(Now())
      ensures changes ==
              if dirty then LocalChanges.Outbound(SyncLoop.Changed(old(Now()), noticed).0, old(disk)) else []
    {
      hide SyncLoop.Relisted, SyncLoop.Changed, LocalChanges.Outbound;
      changes := [];
      if dirty {
        lastChange := now;
        changes := Relist(noticed, wall);
      }
    }

    method RoundIfDue(settled: bool, sha: Bytes -> Bytes, now: int) returns (root: Option<Bytes>, digest: Option<Digest>)
      modifies this
      ensures var due := Cadence.StateDue(old(Rounds()), Cadence.Tick(now, false, settled));
              && Rounds() == (if due then old(Rounds()).(lastState := now) else old(Rounds()))
              && Now() == (if due then old(Now()).(peers := Speaking(old(peers), now)) else old(Now()))
              && root == (if due then Some(RootHash.Root(sha, former, graves)) else None)
              && if due then AsksOne(old(Now()), now, root.value, digest) else digest.None?
    {
      hide Speaking, RootHash.Root, AsksOne;
      root, digest := None, None;
      if now - lastState >= Cadence.CEILING
         || (settled && now - lastChange >= Cadence.QUIESCENCE && now - lastState >= Cadence.PERIOD)
      {
        lastState := now;
        var mine;
        mine, digest := GoRound(sha, now);
        root := Some(mine);
      }
    }

    /** What the loop does in one turn, in its order, is what the state machine makes of the same
        events, a round going out when it is due by the two moments; and what goes out are the changes,
        the round and the repairs of the states in between. */
    method Turn(flushes: seq<SyncLoop.Flush>, dirty: bool, noticed: Ticks, wall: int,
                settled: bool, sha: Bytes -> Bytes, now: int,
                arrived: Option<Incoming>, own: Bytes, received: int)
      returns (changes: seq<LocalChanges.Publication>, root: Option<Bytes>, digest: Option<Digest>,
               repairs: seq<Outgoing>)
      modifies this
      ensures Rounds() == Cadence.After(old(Rounds()), Cadence.Tick(now, dirty, settled))
      ensures Now() == Turned(old(Now()), flushes, dirty, noticed, wall, IsDue(old(Rounds()), now, dirty, settled), now,
                              arrived, own, received)
      ensures var stateDue := IsDue(old(Rounds()), now, dirty, settled);
              var drained := SyncLoop.Drained(old(Now()), flushes);
              var listed := if dirty then SyncLoop.Relisted(drained, noticed, wall) else drained;
              && changes == (if dirty then LocalChanges.Outbound(SyncLoop.Changed(drained, noticed).0, drained.disk) else [])
              && root == (if stateDue then Some(RootHash.Root(sha, listed.former, listed.graves)) else None)
              && (if stateDue then AsksOne(listed, now, root.value, digest) else digest.None?)
              && Hands(listed, now, repairs)
    {
      hide SyncLoop.Drained, SyncLoop.Relisted, SyncLoop.Changed, Speaking, Repairs.Published, Receive, Turned,
           RootHash.Root, Ready, Repairs.Rounded, LocalChanges.Outbound, Encoded, Node.Act, AsksOne, Hands;
      TurnedIs(Now(), flushes, dirty, noticed, wall, IsDue(Rounds(), now, dirty, settled), now, arrived, own, received);
      DrainAlerts(flushes);
      changes := ListIfDirty(dirty, noticed, wall, now);
      ghost var listed := Now();
      root, digest := RoundIfDue(settled, sha, now);
      ghost var heard := peers;
      repairs := PublishRepairs(now);
      HandsWhoeverListens(listed, heard, now, repairs);
      if arrived.Some? {
        ReceiveOne(arrived.value, own, wall, received);
      }
    }
  }

  /** Whether a round is due at this turn. */
  predicate IsDue(rounds: Cadence.Clocks, now: int, dirty: bool, settled: bool) {
    var tick := Cadence.Tick(now, dirty, settled);
    Cadence.StateDue(Cadence.Listed(rounds, tick), tick)
  }

  function At(session: set<Torrent>, path: Path): (found: set<Torrent>) {
    set t | t in session && t.path == path
  }

  function WithoutStale(session: set<Torrent>, path: Path, content: Hash): (kept: set<Torrent>) {
    set t | t in session && (t.path != path || t.content == content)
  }

  function WithTorrent(session: set<Torrent>, path: Path, content: Hash): (served: set<Torrent>) {
    if exists t :: t in session && t.content == content then session else session + {Torrent(content, path)}
  }

  lemma ServingIsBoth(session: set<Torrent>, path: Path, content: Hash)
    ensures Serving(session, path, content) == WithTorrent(WithoutStale(session, path, content), path, content)
  {
  }

  lemma ErasedLeaves(n: State, path: Path)
    ensures Erased(n, path).graves == n.graves
  {
  }

  lemma ActTells(n: State, m: Incoming)
    ensures Node.Act(n, m).1.Made? ==> m.AddFile?
  {
  }

  lemma NothingToArm(pending: Moments, now: int)
    ensures Arm(pending, [], now) == pending
  {
  }

  // ---- Adoption, one deletion at a time ----

  /** The state once the deletions of `s` were taken on. */
  ghost function AdoptedThrough(n: State, news: TimeMap, s: set<Path>): (after: State) {
    var done := Slice(news, s);
    var killed := done.Keys * n.former.Keys;
    Forgotten(n, killed).(
      graves := n.graves + done,
      former := n.former - killed,
      disk := n.disk - killed,
      session := (set t | t in n.session && t.path !in killed))
  }

  ghost function AdoptedOne(n: State, path: Path, at: Ticks): (after: State) {
    var marked := n.(graves := Marked(n.graves, path, at));
    if path !in n.former then marked
    else Forgotten(Erased(marked.(former := n.former - {path}), path), {path})
  }

  lemma AdoptedOneIs(n: State, path: Path, at: Ticks)
    ensures AdoptedOne(n, path, at) ==
      var marked := n.(graves := Marked(n.graves, path, at));
      if path !in n.former then marked
      else Forgotten(Erased(marked.(former := n.former - {path}), path), {path})
  {
  }

  lemma Peeled<V>(m: map<Path, V>, s: set<Path>, path: Path)
    ensures m - (s + {path}) == m - s - {path}
  {
  }

  lemma KilledNext(news: TimeMap, former: TimeMap, s: set<Path>, path: Path)
    requires path in news
    ensures var more := Slice(news, s + {path}).Keys * former.Keys;
            more == if path in former then Slice(news, s).Keys * former.Keys + {path}
                    else Slice(news, s).Keys * former.Keys
  {
  }

  lemma MarkedNext(graves: TimeMap, news: TimeMap, s: set<Path>, path: Path)
    requires path in news && path !in s && (path in graves ==> graves[path] < news[path])
    ensures Marked(graves + Slice(news, s), path, news[path]) == graves + Slice(news, s + {path})
  {
  }

  lemma AdoptedNext(n: State, news: TimeMap, s: set<Path>, path: Path)
    requires path in news && path !in s && (path in n.graves ==> n.graves[path] < news[path])
    ensures AdoptedThrough(n, news, s + {path}) == AdoptedOne(AdoptedThrough(n, news, s), path, news[path])
  {
    hide Marked;
    KilledNext(news, n.former, s, path);
    MarkedNext(n.graves, news, s, path);
    var killed := Slice(news, s).Keys * n.former.Keys;
    assert path !in killed;
    if path in n.former {
      Peeled(n.former, killed, path);
      Peeled(n.disk, killed, path);
      Peeled(n.announcements, killed, path);
      Peeled(n.applied, killed, path);
      Peeled(n.pending, killed, path);
    }
  }

  lemma AdoptionTurn(n: State, theirs: TimeMap, now: int, i: nat)
    requires i < |Adoptable(theirs, n.former, n.graves, now)|
    ensures var news := Adoptable(theirs, n.former, n.graves, now);
            var ks := Sorted(news.Keys);
            && ks[i] in news
            && AdoptedThrough(n, news, Visited(ks, i + 1))
               == AdoptedOne(AdoptedThrough(n, news, Visited(ks, i)), ks[i], news[ks[i]])
  {
    hide AdoptedThrough, AdoptedOne;
    var news := Adoptable(theirs, n.former, n.graves, now);
    var ks := Sorted(news.Keys);
    assert ks[i] in news.Keys;
    VisitNext(ks, i);
    VisitInOrder(ks, i);
    LessIrreflexive(ks[i]);
    AdoptedNext(n, news, Visited(ks, i), ks[i]);
  }

  lemma NothingAdopted(n: State, news: TimeMap, s: set<Path>)
    requires Slice(news, s) == map[]
    ensures AdoptedThrough(n, news, s) == n
  {
    hide Slice;
    Unchanged(n.announcements);
    Unchanged(n.applied);
    Unchanged(n.pending);
    Unchanged(n.former);
    Unchanged(n.disk);
    assert n.graves + map[] == n.graves;
    assert (set t | t in n.session && t.path !in {}) == n.session;
    assert Slice(news, s).Keys * n.former.Keys == {};
  }

  lemma Unchanged<V>(m: map<Path, V>)
    ensures m - {} == m
  {
  }

  lemma AllAdopted(n: State, theirs: TimeMap, now: int, s: set<Path>)
    requires var news := Adoptable(theirs, n.former, n.graves, now); Slice(news, s) == news
    ensures AdoptedThrough(n, Adoptable(theirs, n.former, n.graves, now), s) == Node.Adopt(n, theirs, now)
  {
    hide Slice, Adoptable;
  }

  lemma AdoptionEnds(n: State, theirs: TimeMap, now: int)
    ensures var news := Adoptable(theirs, n.former, n.graves, now);
            && AdoptedThrough(n, news, Visited(Sorted(news.Keys), 0)) == n
            && AdoptedThrough(n, news, Visited(Sorted(news.Keys), |news|)) == Node.Adopt(n, theirs, now)
  {
    hide AdoptedThrough, Adoptable, Sorted, Node.Adopt;
    var news := Adoptable(theirs, n.former, n.graves, now);
    WholeSlice(news);
    NothingAdopted(n, news, Visited(Sorted(news.Keys), 0));
    AllAdopted(n, theirs, now, Visited(Sorted(news.Keys), |news|));
  }

  // ---- What goes out ----

  datatype Digest = Digest(to: Bytes, held: Bytes, graves: Bytes)

  /** A create made of the bytes the path was last announced with, or hashed afresh off disk. */
  datatype Outgoing = Again(path: Path, origin: Ticks, buffer: Bytes) | Afresh(path: Path, origin: Ticks)

  /** A repair goes out under the time listed now. */
  predicate Carries(n: State, sent: Repairs.Answer, out: Outgoing) {
    match sent
    case Cached(p) =>
      p in n.former && p in n.announcements && out == Again(p, n.former[p], n.announcements[p].buffer)
    case Rebuilt(p) => p in n.former && p !in n.announcements && out == Afresh(p, n.former[p])
  }

  /** One speaking peer with another root hash is sent a digest of listing and tombstones, or there is
      none. */
  ghost predicate AsksOne(n: State, now: int, root: Bytes, digest: Option<Digest>) {
    var peers := Speaking(n.peers, now);
    match digest
    case Some(d) =>
      d.to in peers && peers[d.to].root != root && d.held == Encoded(n.former) && d.graves == Encoded(n.graves)
    case None => forall e :: e in peers ==> peers[e].root == root
  }

  /** The repairs that are due, one message for each the round sends. */
  ghost predicate Hands(n: State, now: int, out: seq<Outgoing>) {
    var sent := Repairs.Rounded(Ready(n.pending, now), n.former.Keys, n.announcements.Keys, Repairs.FRESH).sent;
    |out| == |sent| && forall i :: 0 <= i < |out| ==> Carries(n, sent[i], out[i])
  }

  lemma HandsWhoeverListens(n: State, peers: map<Bytes, Heard>, now: int, out: seq<Outgoing>)
    ensures Hands(n.(peers := peers), now, out) <==> Hands(n, now, out)
  {
  }

  lemma NextRepair(ready: seq<Path>, i: nat, listed: set<Path>, cached: set<Path>, r: Repairs.Round)
    requires i < |ready|
    ensures Repairs.Rounded(ready[i..], listed, cached, r)
            == Repairs.Rounded(ready[i + 1..], listed, cached, Repairs.Considered(ready[i], listed, cached, r))
  {
    assert ready[i..][1..] == ready[i + 1..];
  }

  lemma LastRepair(ready: seq<Path>, listed: set<Path>, cached: set<Path>, r: Repairs.Round)
    ensures Repairs.Rounded(ready[|ready|..], listed, cached, r) == r
  {
  }

  /** The state machine's events of one turn, one after another. */
  ghost function Turned(
      n: State, flushes: seq<SyncLoop.Flush>, dirty: bool, noticed: Ticks, wall: int, stateDue: bool,
      now: int, arrived: Option<Incoming>, own: Bytes, received: int): (after: State)
  {
    var start := SyncLoop.Loop(n, SyncLoop.Draining, dirty, {});
    var drained := SyncLoop.After(start, SyncLoop.Drains(flushes), own);
    var listed := SyncLoop.After(drained, SyncLoop.Relists(noticed, wall), own);
    var round := SyncLoop.After(listed, SyncLoop.GoesRound(stateDue, now), own);
    var event := match arrived
      case Some(m) => SyncLoop.Receives(m, wall, received)
      case None => SyncLoop.ReceivesNothing;
    SyncLoop.After(round, event, own).n
  }

  lemma TurnedIs(
      n: State, flushes: seq<SyncLoop.Flush>, dirty: bool, noticed: Ticks, wall: int, stateDue: bool,
      now: int, arrived: Option<Incoming>, own: Bytes, received: int)
    ensures var drained := SyncLoop.Drained(n, flushes);
            var listed := if dirty then SyncLoop.Relisted(drained, noticed, wall) else drained;
            var stated := if stateDue then listed.(peers := Speaking(listed.peers, now)) else listed;
            var repaired := stated.(pending :=
              Repairs.Published(stated.pending, stated.former.Keys, stated.announcements.Keys, now));
            Turned(n, flushes, dirty, noticed, wall, stateDue, now, arrived, own, received) ==
            if arrived.Some? then Receive(repaired, arrived.value, own, wall, received) else repaired
  {
    hide SyncLoop.Drained, SyncLoop.Relisted, Speaking, Repairs.Published, Receive;
  }
}
