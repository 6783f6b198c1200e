/** A node between transfers: what one message, followed to the end of whatever it sets off, makes
    of the tree a digest describes. */
module Settle {
  import opened Paths
  import opened Decimal
  import opened Wire
  import opened Reconcile
  import opened Lattice
  import opened Ladder
  import opened Node

  function View(n: State): (tree: Tree) {
    Tree(n.former, n.graves)
  }

  function CellAt(n: State, p: Path): (cell: Cell) {
    CellOf(View(n), p)
  }

  /** The listing agrees with the disk, nothing listed is also remembered deleted, every torrent of
      the session has its file, and every torrent and every announcement in hand is of the file its
      info hash was taken over: the hash covers the path along with the bytes. */
  ghost predicate Settled(n: State, fileOf: Hash -> Path) {
    && n.disk == n.former
    && Tidy(View(n))
    && (forall t :: t in n.session ==> t.path in n.disk && fileOf(t.content) == t.path)
    && (forall p :: p in n.announcements ==> fileOf(n.announcements[p].content) == p)
  }

  lemma SettledIsTidy(n: State, fileOf: Hash -> Path)
    requires Settled(n, fileOf)
    ensures Tidy(View(n))
  {
  }

  /** A transfer, the file having been written at `written` and its flush noticed at `flushed`: nothing
      is written unless the torrent is in the session. */
  function Transferred(n: State, p: Path, content: Hash, written: Ticks, flushed: Ticks): (after: State) {
    if Torrent(content, p) in n.session then Stamped(n.(disk := n.disk[p := written]), p, flushed) else n
  }

  /** A create received and followed through: if a transfer starts it finishes. */
  function Delivered(n: State, what: Announcement, origin: Ticks, p: Path, written: Ticks, flushed: Ticks): (after: State) {
    var m := AddFile(what, origin, p);
    var got := Receive(n, m, [], 0, 0);
    var out := Act(n, m).1;
    if out.Made? && !out.alreadyHeld then Transferred(got, p, what.content, written, flushed) else got
  }

  /** No other file is served with this content. */
  ghost predicate Own(session: set<Torrent>, p: Path, content: Hash) {
    forall t :: t in session && t.content == content ==> t.path == p
  }

  /** The session serves the announced content at the path afterwards exactly if it did not serve it
      at another: `add_torrent` hands that one back. */
  lemma ServesTheFile(session: set<Torrent>, p: Path, content: Hash)
    ensures Torrent(content, p) in Serving(session, p, content)
            <==> Torrent(content, p) in session || Own(session, p, content)
    ensures forall t :: t in Serving(session, p, content) ==> t in session || t == Torrent(content, p)
  {
    var kept := set t | t in session && (t.path != p || t.content == content);
    if !Own(session, p, content) {
      var t :| t in session && t.content == content && t.path != p;
      assert t in kept;
    }
  }

  /** A new file whose content the session serves under another path never arrives, whatever is
      announced: that is all that can keep it from arriving. */
  lemma ArrivesExactlyIfOwn(n: State, what: Announcement, origin: Ticks, p: Path, written: Ticks, flushed: Ticks)
    requires p !in n.disk && Torrent(what.content, p) !in n.session && written <= flushed
    requires Act(n, AddFile(what, origin, p)).1.Made?
    ensures p in Delivered(n, what, origin, p, written, flushed).disk <==> Own(n.session, p, what.content)
  {
    hide Serving;
    ServesTheFile(n.session, p, what.content);
  }

  /** An applied create leaves the file, its listing and its snapshot at the announced time, which
      is no earlier than the one it had. */
  lemma AppliedEndsAtOrigin(n: State, what: Announcement, origin: Ticks, p: Path, written: Ticks, flushed: Ticks)
    requires written <= flushed
    requires var out := Act(n, AddFile(what, origin, p)).1; out.Made? && (out.alreadyHeld ==> p in n.disk)
    requires Own(n.session, p, what.content)
    ensures var after := Delivered(n, what, origin, p, written, flushed);
            && after.disk == n.disk[p := origin] && after.former == n.former[p := origin]
            && after.written == n.written[p := origin]
            && after.graves == n.graves - {p}
            && after.applied == n.applied[p := Applied(origin, what.content)]
            && after.announcements == n.announcements[p := what]
            && after.session == Serving(n.session, p, what.content)
            && (p in n.disk ==> n.disk[p] <= origin)
  {
    hide Serving;
    var (acted, out) := Act(n, AddFile(what, origin, p));
    assert p in n.disk ==> n.disk[p] <= origin;
    var awaited := acted.(origins := acted.origins[p := origin]);
    ServesTheFile(n.session, p, what.content);
    if out.alreadyHeld {
      StampPutsBack(awaited, p, origin);
    } else {
      var noted := Noted(acted, out, what);
      StampPutsBack(noted.(disk := noted.disk[p := written]), p, flushed);
    }
  }

  /** Stamping a file no newer than it should be puts its waiting time on it, everywhere. */
  lemma StampPutsBack(n: State, p: Path, writtenBy: Ticks)
    requires p in n.disk && n.disk[p] <= writtenBy && p in n.origins
    ensures var time := n.origins[p];
            Stamped(n, p, writtenBy) ==
            n.(disk := n.disk[p := time], origins := n.origins - {p},
               written := n.written[p := time], former := n.former[p := time])
  {
  }

  /** A create that is not applied touches at most the tombstone it outlived. */
  lemma RefusedChangesNoFile(n: State, what: Announcement, origin: Ticks, p: Path, written: Ticks, flushed: Ticks)
    requires Act(n, AddFile(what, origin, p)).1.Ignored?
    ensures var after := Delivered(n, what, origin, p, written, flushed);
            if p in n.graves && Beats(n.graves[p], origin) then after == n
            else after == n.(graves := n.graves - {p})
                 && p in n.disk && (origin < n.disk[p] || (origin == n.disk[p] && p in n.applied
                    && n.applied[p].origin == origin && n.applied[p].content < what.content))
  {
  }

  /** On a settled node a create, followed through, is exactly `Received`. */
  lemma DeliveryIsReception(n: State, what: Announcement, origin: Ticks, p: Path, written: Ticks, flushed: Ticks,
                            fileOf: Hash -> Path)
    requires Settled(n, fileOf) && written <= flushed && fileOf(what.content) == p
    ensures var after := Delivered(n, what, origin, p, written, flushed);
            Settled(after, fileOf) && View(after) == Received(View(n), p, origin)
  {
    hide Delivered, Serving;
    var after := Delivered(n, what, origin, p, written, flushed);
    if Act(n, AddFile(what, origin, p)).1.Made? {
      AppliedEndsAtOrigin(n, what, origin, p, written, flushed);
      ServesTheFile(n.session, p, what.content);
    } else {
      RefusedChangesNoFile(n, what, origin, p, written, flushed);
      if p in n.disk {
        assert p !in n.graves;
        assert n.graves - {p} == n.graves;
        if origin == n.disk[p] {
          assert n.former[p := origin] == n.former;
        }
      }
    }
  }

  /** On a settled node reading a digest is exactly `Adopted`. */
  lemma DigestIsAdoption(n: State, held: Bytes, graves: Bytes, wall: int, steady: int, fileOf: Hash -> Path)
    requires Settled(n, fileOf)
    ensures var after := DigestRead(n, held, graves, wall, steady);
            Settled(after, fileOf) && View(after) == Adopted(View(n), Decoded(graves), wall)
  {
    hide Adoptable, Decoded, Gaps, Arm;
    var theirs := Decoded(graves);
    var news := Adoptable(theirs, n.former, n.graves, wall);
    assert n.former - news.Keys * n.former.Keys == n.former - news.Keys;
    AdoptionStaysTidy(View(n), theirs, wall);
  }

  lemma AdoptionStaysTidy(t: Tree, theirs: TimeMap, now: int)
    requires Tidy(t)
    ensures Tidy(Adopted(t, theirs, now))
  {
    forall p
      ensures !(p in Adopted(t, theirs, now).held && p in Adopted(t, theirs, now).graves)
    {
      AdoptionIsJoin(t, theirs, now, p);
    }
  }

  // ---- Stamping ----

  /** An edit made under its own transfer keeps its time and is left to travel as an edit: the file,
      the listing and the snapshot stay as they were and the waiting time is given up. */
  lemma EditSurvivesStamp(n: State, p: Path, writtenBy: Ticks)
    requires p in n.disk && n.disk[p] > writtenBy
    ensures var after := Stamped(n, p, writtenBy);
            after == n.(origins := n.origins - {p})
  {
  }

  /** For a create the session already held, a file that is there is moved to the announced time at
      once and never backwards. */
  lemma HeldCreateMovesForward(n: State, what: Announcement, origin: Ticks, p: Path, own: Bytes, wall: int, steady: int)
    requires p in n.disk
    requires var out := Act(n, AddFile(what, origin, p)).1; out.Made? && out.alreadyHeld
    ensures var after := Receive(n, AddFile(what, origin, p), own, wall, steady);
            && n.disk[p] <= origin
            && after.disk == n.disk[p := origin] && after.former == n.former[p := origin]
            && after.written == n.written[p := origin] && p !in after.origins
  {
  }

  // ---- Reading a digest ----

  /** Adoption kills exactly the listed files strictly older than an unexpired deletion that this
      node did not know already, and a path it kills leaves every map a repair is made from. */
  lemma AdoptKillsExactly(n: State, theirs: TimeMap, now: int, p: Path)
    requires p in n.former
    ensures var after := Adopt(n, theirs, now);
            if p in theirs && !Expired(theirs[p], now) && n.former[p] < theirs[p]
               && (p in n.graves ==> n.graves[p] < theirs[p])
            then
              && p !in after.former && p !in after.disk
              && p in after.graves && after.graves[p] == theirs[p]
              && p !in after.announcements && p !in after.applied && p !in after.pending
              && forall t :: t in after.session ==> t.path != p
            else
              && p in after.former && after.former[p] == n.former[p]
              && (p in n.disk <==> p in after.disk)
              && (p in n.disk ==> after.disk[p] == n.disk[p])
  {
  }

  /** What is left of a digest after its deletions are gaps, and a path the same digest killed is
      never among them. */
  lemma DigestArmsOnlyListed(n: State, held: Bytes, graves: Bytes, wall: int, steady: int, p: Path)
    ensures var adopted, after := Adopt(n, Decoded(graves), wall), DigestRead(n, held, graves, wall, steady);
            && after == adopted.(pending := after.pending)
            && (p in n.former && p !in after.former ==> p !in after.pending)
  {
    var adopted := Adopt(n, Decoded(graves), wall);
    var gaps := Gaps(adopted.former, adopted.graves, Decoded(held));
    if p in n.former && p !in adopted.former {
      AdoptKillsExactly(n, Decoded(graves), wall, p);
      assert p !in gaps;
      ArmOnlyMissing(adopted.pending, gaps, steady, p);
    }
  }

  lemma {:induction false} ArmedOnlyMissing(pending: Moments, missing: seq<Path>, next: int, p: Path)
    requires p !in pending && p !in missing
    ensures p !in Armed(pending, missing, next)
    decreases |missing|
  {
    if |missing| > 0 {
      assert missing == [missing[0]] + missing[1..];
      if missing[0] in pending {
        ArmedOnlyMissing(pending, missing[1..], next, p);
      } else {
        ArmedOnlyMissing(pending[missing[0] := next], missing[1..], next + PACE, p);
      }
    }
  }

  lemma ArmOnlyMissing(pending: Moments, missing: seq<Path>, now: int, p: Path)
    requires p !in pending && p !in missing
    ensures p !in Arm(pending, missing, now)
  {
    ArmedOnlyMissing(pending, missing, Behind(Sorted(pending.Keys), pending, now), p);
  }
}
