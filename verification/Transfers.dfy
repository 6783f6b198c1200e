/** A transfer on its way when the next message arrives: what `Settle` and `Creates` say of creates
    followed through no longer holds of every one. */
module Transfers {
  import opened Paths
  import opened Decimal
  import opened Wire
  import opened Reconcile
  import opened Lattice
  import opened Ladder
  import opened Node
  import opened Settle
  import opened Creates
  import SyncLoop

  /** A create for this path that is applied and has to be transferred; its content is no other
      file's. */
  ghost predicate Starts(n: State, p: Path, c: Create) {
    && Act(n, AddFile(c.what, c.origin, p)).1 == Made(p, c.origin, c.what.content, false)
    && c.written <= c.flushed
    && Own(n.session, p, c.what.content)
  }

  function Got(n: State, p: Path, c: Create): (after: State) {
    Receive(n, AddFile(c.what, c.origin, p), [], 0, 0)
  }

  /** The transfer under way: nothing of it is on the disk yet, or some of it is, written at `wrote`. */
  function Half(n: State, p: Path, c: Create, wrote: Option<Ticks>): (after: State) {
    var got := Got(n, p, c);
    match wrote
    case None => got
    case Some(at) => got.(disk := got.disk[p := at])
  }

  function Finish(n: State, p: Path, c: Create): (after: State) {
    Transferred(n, p, c.what.content, c.written, c.flushed)
  }

  /** What a create that is being transferred has changed so far. */
  lemma HalfIs(n: State, p: Path, c: Create, wrote: Option<Ticks>)
    requires Starts(n, p, c)
    ensures var half := Half(n, p, c, wrote);
            && half.disk == (if wrote.Some? then n.disk[p := wrote.value] else n.disk)
            && half.former == n.former && half.graves == n.graves - {p}
            && half.origins == n.origins[p := c.origin]
            && half.applied == n.applied[p := Applied(c.origin, c.what.content)]
            && half.announcements == n.announcements[p := c.what]
            && (forall t :: t in half.session && t.path == p <==> t == Torrent(c.what.content, p))
            && (forall t :: t in half.session && t.path != p ==> t in n.session)
  {
  }

  lemma FinishIs(n: State, p: Path, c: Create)
    requires Torrent(c.what.content, p) in n.session && c.written <= c.flushed
    ensures var after, time := Finish(n, p, c), if p in n.origins then n.origins[p] else c.written;
            && after.disk == n.disk[p := time] && after.former == n.former[p := time]
            && after.graves == n.graves && after.session == n.session && after.applied == n.applied
            && after.announcements == n.announcements
  {
    var written := n.(disk := n.disk[p := c.written]);
    assert Stamped(written, p, c.flushed).disk == n.disk[p := if p in n.origins then n.origins[p] else c.written];
  }

  // ---- Two creates at once ----

  /** Whether a second create is taken: it is judged by the time of whatever is on the disk, which is
      the copy from before as long as nothing was written and the time of the write once something
      was. */
  predicate TakesOver(half: State, p: Path, c: Create, later: Create) {
    p !in half.disk || later.origin > half.disk[p]
    || (later.origin == half.disk[p] && (c.origin != half.disk[p] || later.what.content <= c.what.content))
  }

  lemma SecondIsJudged(n: State, p: Path, c: Create, wrote: Option<Ticks>, later: Create)
    requires Starts(n, p, c)
    ensures var half := Half(n, p, c, wrote);
            var out := Act(half, AddFile(later.what, later.origin, p)).1;
            && (out.Made? <==> TakesOver(half, p, c, later))
            && (out.Made? ==> out == Made(p, later.origin, later.what.content, later.what.content == c.what.content))
  {
    hide Half, Starts, Serving;
    HalfIs(n, p, c, wrote);
  }

  /** The second create received and whichever of the two is in transfer then finished. */
  function Ended(half: State, p: Path, c: Create, later: Create): (after: State) {
    var out := Act(half, AddFile(later.what, later.origin, p)).1;
    Finish(Got(half, p, later), p, if out.Made? && !out.alreadyHeld then later else c)
  }

  /** A second create for the content being transferred, taken for one the session holds already. */
  predicate TakenForHeld(half: State, p: Path, c: Create, later: Create) {
    TakesOver(half, p, c, later) && later.what.content == c.what.content && p in half.disk
  }

  /** Which copy two overlapping creates leave: the first if the second is not taken, and the second if
      it is; but one taken for held already is stamped before its file is written, so that the write
      leaves its own time. */
  lemma OverlappingCreatesLeave(n: State, p: Path, c: Create, wrote: Option<Ticks>, later: Create)
    requires Starts(n, p, c) && later.written <= later.flushed && Own(n.session, p, later.what.content)
    ensures var half := Half(n, p, c, wrote);
            CopyAt(Ended(half, p, c, later), p) ==
            if !TakesOver(half, p, c, later) then CopyOf(c)
            else if TakenForHeld(half, p, c, later) && c.written != later.origin then Unaccounted(c.written)
            else CopyOf(later)
  {
    hide Half, Got, Finish, Act;
    var half := Half(n, p, c, wrote);
    HalfIs(n, p, c, wrote);
    SecondIsJudged(n, p, c, wrote, later);
    if !TakesOver(half, p, c, later) {
      RefusedIs(half, p, later);
      FinishIs(Got(half, p, later), p, c);
    } else if later.what.content != c.what.content {
      HalfIs(half, p, later, None);
      NoneIsGot(half, p, later);
      FinishIs(Got(half, p, later), p, later);
    } else {
      HeldIs(half, p, later);
      FinishIs(Got(half, p, later), p, c);
    }
  }

  lemma NoneIsGot(n: State, p: Path, c: Create)
    ensures Half(n, p, c, None) == Got(n, p, c)
  {
  }

  lemma RefusedIs(n: State, p: Path, c: Create)
    requires !Act(n, AddFile(c.what, c.origin, p)).1.Made? && p !in n.graves
    ensures Got(n, p, c) == n
  {
    assert n.graves - {p} == n.graves;
  }

  lemma HeldIs(n: State, p: Path, c: Create)
    requires var out := Act(n, AddFile(c.what, c.origin, p)).1;
      out.Made? && out.alreadyHeld && out.path == p && out.origin == c.origin && out.content == c.what.content
    requires Torrent(c.what.content, p) in n.session
    ensures var got := Got(n, p, c);
            && Torrent(c.what.content, p) in got.session
            && got.applied == n.applied[p := Applied(c.origin, c.what.content)]
            && (if p in n.disk then p !in got.origins else p in got.origins && got.origins[p] == c.origin)
  {
    hide Stamped, Serving;
    ServesTheFile(n.session, p, c.what.content);
    var acted := Act(n, AddFile(c.what, c.origin, p)).0;
    AwaitedIs(acted.(origins := acted.origins[p := c.origin]), p, c.origin);
  }

  lemma AwaitedIs(n: State, p: Path, at: Ticks)
    requires p in n.origins
    ensures var after := Stamped(n, p, at);
            && after.session == n.session && after.applied == n.applied
            && (if p in n.disk then p !in after.origins else after == n)
  {
    hide Stamped;
    if p !in n.disk {
      SyncLoop.StampsNothing(n, p, at);
    } else if n.disk[p] > at {
      EditSurvivesStamp(n, p, at);
    } else {
      SyncLoop.StampSets(n, p, at);
    }
  }

  /** Of the copy here and two overlapping creates, exactly when the greatest is left: when the second
      is taken and no smaller than the first, its transfer not mistaken for one that is over, or not
      taken and no greater. Creates followed through always leave it. */
  lemma OverlappingCreatesKeepTheGreatest(
      n: State, p: Path, c: Create, wrote: Option<Ticks>, later: Create, fileOf: Hash -> Path)
    requires Settled(n, fileOf) && Good(c, p, fileOf) && Good(later, p, fileOf) && Starts(n, p, c)
    ensures var half := Half(n, p, c, wrote);
            CopyAt(Ended(half, p, c, later), p) == Greater(Greater(CopyAt(n, p), CopyOf(c)), CopyOf(later))
            <==> if !TakesOver(half, p, c, later) then NoGreater(CopyOf(later), CopyOf(c))
                 else NoGreater(CopyOf(c), CopyOf(later))
                      && (TakenForHeld(half, p, c, later) ==> c.written == later.origin)
  {
    OnlyOneFile(n, p, later, fileOf);
    StartedIsGreater(n, p, c, fileOf);
    hide Half, Ended, Settled, Starts, Good, TakesOver, NoGreater;
    OverlappingCreatesLeave(n, p, c, wrote, later);
    CopiesAreTotallyOrdered(CopyOf(c), CopyOf(later), CopyOf(c));
  }

  lemma OnlyOneFile(n: State, p: Path, c: Create, fileOf: Hash -> Path)
    requires Settled(n, fileOf) && Good(c, p, fileOf)
    ensures Own(n.session, p, c.what.content) && c.written <= c.flushed
  {
  }

  lemma StartedIsGreater(n: State, p: Path, c: Create, fileOf: Hash -> Path)
    requires Settled(n, fileOf) && Good(c, p, fileOf) && Starts(n, p, c)
    ensures Greater(CopyAt(n, p), CopyOf(c)) == CopyOf(c)
  {
    hide Delivered, Serving;
    AppliedEndsAtOrigin(n, c.what, c.origin, p, c.written, c.flushed);
    CreateTakesTheGreater(n, p, c, fileOf);
  }

  /** It happens on a node that has just started: a file from 1 is updated by a create of 9. Before
      anything is written an older create, of 4, takes its place; once something was written, at 1000, a
      newer one, of 20, is refused; and the same content announced again, at 12, ends at the time of
      the write. */
  lemma OverlapsHappen(p: Path) returns (n: State, c: Create, older: Create, newer: Create, again: Create, fileOf: Hash -> Path)
    ensures Settled(n, fileOf) && Starts(n, p, c)
    ensures Good(c, p, fileOf) && Good(older, p, fileOf) && Good(newer, p, fileOf) && Good(again, p, fileOf)
    ensures CopyAt(Ended(Half(n, p, c, None), p, c, older), p) == CopyOf(older) == Accounted(4, 2)
    ensures CopyAt(Ended(Half(n, p, c, Some(1000)), p, c, newer), p) == CopyOf(c) == Accounted(9, 1)
    ensures newer.origin == 20
    ensures CopyAt(Ended(Half(n, p, c, None), p, c, again), p) == Unaccounted(1001)
    ensures again.origin == 12
  {
    hide Ended, Half, CopyAt;
    n := SyncLoop.Booted(map[p := 1]).n;
    fileOf := _ => p;
    c := Create(Announcement([], 1), 9, 1001, 1001);
    older := Create(Announcement([], 2), 4, 1002, 1002);
    newer := Create(Announcement([], 2), 20, 1002, 1002);
    again := Create(Announcement([], 1), 12, 1002, 1002);
    HalfIs(n, p, c, None);
    HalfIs(n, p, c, Some(1000));
    OverlappingCreatesLeave(n, p, c, None, older);
    OverlappingCreatesLeave(n, p, c, Some(1000), newer);
    OverlappingCreatesLeave(n, p, c, None, again);
  }

  // ---- A deletion received meanwhile ----

  /** A `remove` takes the transfer with it, so nothing comes back. */
  lemma RemoveStopsTheTransfer(n: State, p: Path, c: Create, wrote: Option<Ticks>, deleted: Ticks)
    requires Starts(n, p, c)
    ensures var removed := Removed(Half(n, p, c, wrote), p, deleted);
            Finish(removed, p, c) == removed && CopyAt(removed, p) == Buried(deleted)
  {
    hide Half;
    HalfIs(n, p, c, wrote);
  }

  function DigestMeanwhile(n: State, p: Path, c: Create, wrote: Option<Ticks>, held: Bytes, graves: Bytes,
                           wall: int, steady: int): (after: State)
  {
    Finish(DigestRead(Half(n, p, c, wrote), held, graves, wall, steady), p, c)
  }

  /** Reading a digest changes nothing but what adoption changes and the repairs waiting. */
  lemma ReadIs(n: State, held: Bytes, graves: Bytes, wall: int, steady: int)
    ensures var theirs, after := Decoded(graves), DigestRead(n, held, graves, wall, steady);
            var news := Adoptable(theirs, n.former, n.graves, wall);
            var killed := news.Keys * n.former.Keys;
            && after.disk == n.disk - killed && after.former == n.former - killed
            && after.graves == n.graves + news && after.origins == n.origins
            && after.announcements == n.announcements - killed
            && (forall t :: t in after.session <==> t in n.session && t.path !in killed)
  {
    hide Adoptable, Decoded, Gaps, Arm;
  }

  /** Whether a peer's deletions include this path, not yet expired. */
  ghost predicate Declares(theirs: TimeMap, p: Path, wall: int) {
    p in theirs && !Expired(theirs[p], wall)
  }

  /** Whether a digest takes the copy listed before with it. */
  ghost predicate Kills(theirs: TimeMap, n: State, p: Path, wall: int) {
    p in n.former && Declares(theirs, p, wall) && theirs[p] > n.former[p]
  }

  /** The deletion in a peer's digest of a path whose copy is on its way: what was listed before
      decides whether the transfer is stopped, goes on, or goes on in spite of the deletion. */
  lemma DigestReachesTransfer(n: State, p: Path, c: Create, wrote: Option<Ticks>, held: Bytes, graves: Bytes,
                              wall: int, steady: int)
    requires Starts(n, p, c)
    ensures var read := DigestRead(Half(n, p, c, wrote), held, graves, wall, steady);
            var after := DigestMeanwhile(n, p, c, wrote, held, graves, wall, steady);
            if Kills(Decoded(graves), n, p, wall) then after == read && Torrent(c.what.content, p) !in read.session
            else && after.disk == read.disk[p := c.origin] && after.former == read.former[p := c.origin]
                 && after.graves == read.graves && after.session == read.session
                 && after.announcements == read.announcements
  {
    hide Half, DigestRead, Finish, Adoptable, Decoded;
    var half := Half(n, p, c, wrote);
    var read := DigestRead(half, held, graves, wall, steady);
    HalfIs(n, p, c, wrote);
    ReadIs(half, held, graves, wall, steady);
    NewsOf(Decoded(graves), half.former, half.graves, wall, p);
    assert Torrent(c.what.content, p) in half.session;
    if Torrent(c.what.content, p) in read.session {
      FinishIs(read, p, c);
    } else {
      Stopped(read, p, c);
    }
  }

  lemma NewsOf(theirs: TimeMap, former: TimeMap, graves: TimeMap, wall: int, p: Path)
    ensures var news := Adoptable(theirs, former, graves, wall);
            && (p in news <==> Declares(theirs, p, wall) && (p in graves ==> graves[p] < theirs[p])
                               && (p in former ==> former[p] < theirs[p]))
            && (p in news ==> p in theirs && news[p] == theirs[p])
  {
  }

  lemma Stopped(n: State, p: Path, c: Create)
    requires Torrent(c.what.content, p) !in n.session
    ensures Finish(n, p, c) == n
  {
  }

  /** What a digest read meanwhile leaves at the path itself. */
  lemma LandsAt(n: State, p: Path, c: Create, wrote: Option<Ticks>, held: Bytes, graves: Bytes, wall: int, steady: int)
    requires Starts(n, p, c)
    ensures var theirs := Decoded(graves);
            var after := DigestMeanwhile(n, p, c, wrote, held, graves, wall, steady);
            var deleted := Declares(theirs, p, wall);
            && (p in after.former <==> !Kills(theirs, n, p, wall))
            && (p in after.former ==> after.former[p] == c.origin)
            && (p in after.graves <==> deleted && (p in n.former ==> theirs[p] > n.former[p]))
            && (p in after.graves ==> after.graves[p] == theirs[p])
  {
    hide Half, DigestRead, DigestMeanwhile, Adoptable, Decoded;
    var half := Half(n, p, c, wrote);
    HalfIs(n, p, c, wrote);
    ReadIs(half, held, graves, wall, steady);
    DigestReachesTransfer(n, p, c, wrote, held, graves, wall, steady);
    NewsOf(Decoded(graves), half.former, half.graves, wall, p);
  }

  lemma TidyElsewhere(n: State, p: Path, c: Create, wrote: Option<Ticks>, held: Bytes, graves: Bytes,
                      wall: int, steady: int, fileOf: Hash -> Path, q: Path)
    requires Settled(n, fileOf) && Starts(n, p, c) && q != p
    ensures var after := DigestMeanwhile(n, p, c, wrote, held, graves, wall, steady);
            !(q in after.former && q in after.graves)
  {
    hide Half, DigestRead, DigestMeanwhile, Adoptable, Decoded;
    var half := Half(n, p, c, wrote);
    HalfIs(n, p, c, wrote);
    ReadIs(half, held, graves, wall, steady);
    DigestReachesTransfer(n, p, c, wrote, held, graves, wall, steady);
    NewsOf(Decoded(graves), half.former, half.graves, wall, q);
  }

  /** All of being settled but for the path being listed and remembered deleted at once. */
  lemma SettledElse(n: State, p: Path, c: Create, wrote: Option<Ticks>, held: Bytes, graves: Bytes,
                    wall: int, steady: int, fileOf: Hash -> Path)
    requires Settled(n, fileOf) && Starts(n, p, c) && Good(c, p, fileOf)
    ensures var after := DigestMeanwhile(n, p, c, wrote, held, graves, wall, steady);
            && after.disk == after.former
            && (forall t :: t in after.session ==> t.path in after.disk && fileOf(t.content) == t.path)
            && (forall q :: q in after.announcements ==> fileOf(after.announcements[q].content) == q)
  {
    hide Half, DigestRead, DigestMeanwhile, Adoptable, Decoded, Expired, Starts;
    var half, theirs := Half(n, p, c, wrote), Decoded(graves);
    var read := DigestRead(half, held, graves, wall, steady);
    var after := DigestMeanwhile(n, p, c, wrote, held, graves, wall, steady);
    var killed := Adoptable(theirs, half.former, half.graves, wall).Keys * half.former.Keys;
    HalfIs(n, p, c, wrote);
    ReadIs(half, held, graves, wall, steady);
    DigestReachesTransfer(n, p, c, wrote, held, graves, wall, steady);
    NewsOf(theirs, half.former, half.graves, wall, p);
    SessionIsOwn(n, half, p, c, killed, fileOf);
    if Kills(theirs, n, p, wall) {
      assert p in killed;
      SameLeft(n.former, half.disk, p, killed);
    } else {
      assert p !in killed;
      SameLanded(n.former, half.disk, p, killed, c.origin);
    }
  }

  lemma SameLeft(former: TimeMap, disk: TimeMap, p: Path, killed: set<Path>)
    requires p in killed && p in former && (disk == former || (p in disk && disk == former[p := disk[p]]))
    ensures disk - killed == former - killed
  {
  }

  lemma SameLanded(former: TimeMap, disk: TimeMap, p: Path, killed: set<Path>, at: Ticks)
    requires disk == former || (p in disk && disk == former[p := disk[p]])
    ensures (disk - killed)[p := at] == (former - killed)[p := at]
  {
  }

  /** The torrents that are left and what is left in hand are of their own files. */
  lemma SessionIsOwn(n: State, half: State, p: Path, c: Create, killed: set<Path>, fileOf: Hash -> Path)
    requires Settled(n, fileOf) && Good(c, p, fileOf)
    requires half.announcements == n.announcements[p := c.what]
    requires forall t :: t in half.session && t.path == p <==> t == Torrent(c.what.content, p)
    requires forall t :: t in half.session && t.path != p ==> t in n.session
    ensures forall t :: t in half.session ==> (t.path in n.former || t.path == p) && fileOf(t.content) == t.path
    ensures forall q :: q in half.announcements - killed ==> fileOf((half.announcements - killed)[q].content) == q
  {
  }

  /** A node reading a digest while a file is on its way, written to or not, ends settled exactly if the
      digest does not carry a deletion, however old, of that very path while the path was not listed
      here. If it does, the file lands beside its own tombstone. */
  lemma DigestDuringTransfer(n: State, p: Path, c: Create, wrote: Option<Ticks>, held: Bytes, graves: Bytes,
                             wall: int, steady: int, fileOf: Hash -> Path)
    requires Settled(n, fileOf) && Starts(n, p, c) && Good(c, p, fileOf)
    ensures var theirs := Decoded(graves);
            var after := DigestMeanwhile(n, p, c, wrote, held, graves, wall, steady);
            var deleted := Declares(theirs, p, wall);
            && (Settled(after, fileOf) <==> !(deleted && p !in n.former))
            && (deleted && p !in n.former ==>
                  p in after.former && after.former[p] == c.origin
                  && p in after.graves && after.graves[p] == theirs[p])
            && (!(deleted && p !in n.former) ==>
                  CellAt(after, p) == if deleted && theirs[p] > n.former[p] then Grave(theirs[p]) else File(c.origin))
  {
    hide DigestMeanwhile, Decoded, Declares, Starts, Good;
    var after := DigestMeanwhile(n, p, c, wrote, held, graves, wall, steady);
    LandsAt(n, p, c, wrote, held, graves, wall, steady);
    SettledElse(n, p, c, wrote, held, graves, wall, steady, fileOf);
    forall q | q != p
      ensures !(q in after.former && q in after.graves)
    {
      TidyElsewhere(n, p, c, wrote, held, graves, wall, steady, fileOf, q);
    }
    assert Tidy(View(after)) <==> !(p in after.former && p in after.graves);
  }

  /** And if the deletion is the newer of the two, no peer that says it again can take the file away,
      and this node will repair no one with it. */
  lemma DeadFileStays(n: State, p: Path, c: Create, wrote: Option<Ticks>, held: Bytes, graves: Bytes,
                      wall: int, steady: int, again: TimeMap, later: int, peer: TimeMap, fileOf: Hash -> Path)
    requires Settled(n, fileOf) && Starts(n, p, c) && Good(c, p, fileOf)
    requires var theirs := Decoded(graves);
             Declares(theirs, p, wall) && p !in n.former && theirs[p] > c.origin
             && (p in again ==> again[p] <= theirs[p])
    ensures var after := DigestMeanwhile(n, p, c, wrote, held, graves, wall, steady);
            && p in after.former && p in Adopted(View(after), again, later).held
            && p !in Gaps(after.former, after.graves, peer)
  {
    hide DigestMeanwhile, Decoded;
    DigestDuringTransfer(n, p, c, wrote, held, graves, wall, steady, fileOf);
    var after := DigestMeanwhile(n, p, c, wrote, held, graves, wall, steady);
    KilledExactly(View(after), again, later, p);
  }

  /** It happens on an empty node that has just started: a create of 3 is on its way when a digest says
      the path was deleted at 5. */
  lemma DeadFileHappens(p: Path, wrote: Option<Ticks>, held: Bytes, again: TimeMap, later: int, peer: TimeMap)
    returns (n: State, c: Create, graves: Bytes)
    requires p in again ==> again[p] <= 5
    ensures var after := DigestMeanwhile(n, p, c, wrote, held, graves, 5, 0);
            && n == SyncLoop.Booted(map[]).n && Starts(n, p, c)
            && p in after.former && after.former[p] == 3 && p in after.graves && after.graves[p] == 5
            && p in Adopted(View(after), again, later).held && p !in Gaps(after.former, after.graves, peer)
  {
    hide DigestMeanwhile;
    n := SyncLoop.Booted(map[]).n;
    c := Create(Announcement([], 1), 3, 6, 6);
    var deleted := map[p := 5];
    graves := Encoded(deleted);
    RoundTrip(deleted);
    var fileOf := (h: Hash) => p;
    assert Settled(n, fileOf) && Good(c, p, fileOf);
    DigestDuringTransfer(n, p, c, wrote, held, graves, 5, 0, fileOf);
    DeadFileStays(n, p, c, wrote, held, graves, 5, 0, again, later, peer, fileOf);
  }
}
