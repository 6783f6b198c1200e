/** Everything a message changes in a node and everything it leaves alone. */
module Effects {
  import opened Paths
  import opened Decimal
  import opened Wire
  import opened Reconcile
  import opened Ladder
  import opened Node

  /** A deletion takes its path from the disk, the session and the three maps repairs are made from, and
      marks it; the listing, the snapshots, the waiting times and the peers stay, and so does all of
      every other path. */
  lemma RemoveExactly(n: State, p: Path, deleted: Ticks, own: Bytes, wall: int, steady: int)
    ensures var after := Receive(n, RemoveFile(p, deleted), own, wall, steady);
            && after.disk == n.disk - {p} && after.former == n.former
            && after.graves == (if p in n.graves && n.graves[p] >= deleted then n.graves else n.graves[p := deleted])
            && after.written == n.written && after.origins == n.origins && after.peers == n.peers
            && after.applied == n.applied - {p} && after.announcements == n.announcements - {p}
            && after.pending == n.pending - {p}
            && forall t :: t in after.session <==> t in n.session && t.path != p
  {
  }

  /** Whether a create that outlived every deletion beats what is on the disk. */
  predicate IsNewest(n: State, what: Announcement, origin: Ticks, p: Path) {
    p !in n.disk || n.disk[p] < origin
    || (n.disk[p] == origin
        && !(p in n.applied && n.applied[p].origin == origin && n.applied[p].content < what.content))
  }

  lemma NewestWins(n: State, what: Announcement, origin: Ticks, p: Path)
    ensures Wins(n, p, origin, what.content) <==> IsNewest(n, what, origin, p)
  {
  }

  /** A create deleted since changes nothing. */
  lemma DeletedCreateExactly(n: State, what: Announcement, origin: Ticks, p: Path, own: Bytes, wall: int, steady: int)
    requires p in n.graves && n.graves[p] > origin
    ensures Receive(n, AddFile(what, origin, p), own, wall, steady) == n
  {
  }

  /** One that is not newer changes the tombstone it outlived. */
  lemma OldCreateExactly(n: State, what: Announcement, origin: Ticks, p: Path, own: Bytes, wall: int, steady: int)
    requires (p in n.graves ==> n.graves[p] <= origin) && !IsNewest(n, what, origin, p)
    ensures Receive(n, AddFile(what, origin, p), own, wall, steady) == n.(graves := n.graves - {p})
  {
  }

  /** What any other does to the session and the tombstones. */
  lemma NewCreateActs(n: State, what: Announcement, origin: Ticks, p: Path)
    requires (p in n.graves ==> n.graves[p] <= origin) && IsNewest(n, what, origin, p)
    ensures Act(n, AddFile(what, origin, p)) ==
            (n.(graves := n.graves - {p}, session := Serving(n.session, p, what.content)),
             Made(p, origin, what.content, Torrent(what.content, p) in n.session))
  {
    hide Serving, Wins;
    NewestWins(n.(graves := n.graves - {p}), what, origin, p);
  }

  /** Any other is put on record for its path and no other; its time waits for the transfer unless the
      torrent was served and the file is there, which is then stamped. */
  lemma NewCreateExactly(n: State, what: Announcement, origin: Ticks, p: Path, own: Bytes, wall: int, steady: int)
    requires (p in n.graves ==> n.graves[p] <= origin) && IsNewest(n, what, origin, p)
    ensures Receive(n, AddFile(what, origin, p), own, wall, steady) ==
            var recorded := n.(graves := n.graves - {p},
                               applied := n.applied[p := Applied(origin, what.content)],
                               announcements := n.announcements[p := what],
                               pending := n.pending - {p},
                               session := Serving(n.session, p, what.content));
            if Torrent(what.content, p) in n.session && p in n.disk then
              recorded.(disk := n.disk[p := origin], former := n.former[p := origin],
                        written := n.written[p := origin], origins := n.origins - {p})
            else recorded.(origins := n.origins[p := origin])
  {
    hide Serving, Wins, Stamped, Act;
    NewCreateActs(n, what, origin, p);
    var acted := Act(n, AddFile(what, origin, p)).0;
    var awaited := acted.(origins := acted.origins[p := origin]);
    StampedAtOnce(awaited, p, origin);
    assert n.origins[p := origin] - {p} == n.origins - {p};
  }

  lemma StampedAtOnce(n: State, p: Path, at: Ticks)
    requires p in n.origins && n.origins[p] == at && (p in n.disk ==> n.disk[p] <= at)
    ensures var after := Stamped(n, p, at);
            after == if p !in n.disk then n
                     else n.(disk := n.disk[p := at], origins := n.origins - {p},
                             written := n.written[p := at], former := n.former[p := at])
  {
  }

  /** What the session serves afterwards: what it did, less the path's other torrents, and the new one
      unless its content is among them. */
  lemma ServingExactly(session: set<Torrent>, p: Path, content: Hash, t: Torrent)
    ensures t in Serving(session, p, content) <==>
            (t in session && (t.path != p || t.content == content))
            || (t == Torrent(content, p) && forall u :: u in session ==> u.content != content)
  {
    if t == Torrent(content, p) {
      forall u | u in session && u.content == content
        ensures u in set v | v in session && (v.path != p || v.content == content)
      {
      }
    }
  }

  // ---- Adoption ----

  /** Whether a peer's deletion is younger than an hour and later than all that is known here. */
  predicate IsTakenOn(n: State, theirs: TimeMap, now: int, q: Path) {
    && q in theirs && now - theirs[q] <= 3_600_000_000_000
    && (q in n.graves ==> n.graves[q] < theirs[q]) && (q in n.former ==> n.former[q] < theirs[q])
  }

  predicate IsKilled(n: State, theirs: TimeMap, now: int, q: Path) {
    q in n.former && IsTakenOn(n, theirs, now, q)
  }

  /** `m` without the paths an adoption kills. */
  ghost predicate LessKilled<V>(n: State, theirs: TimeMap, now: int, m: map<Path, V>, after: map<Path, V>) {
    forall q :: (q in after <==> q in m && !IsKilled(n, theirs, now, q)) && (q in after ==> after[q] == m[q])
  }

  lemma NewsAreTakenOn(n: State, theirs: TimeMap, now: int, q: Path)
    ensures var news := Adoptable(theirs, n.former, n.graves, now);
            && (q in news <==> IsTakenOn(n, theirs, now, q)) && (q in news ==> news[q] == theirs[q])
  {
    AdoptableExactly(theirs, n.former, n.graves, now, q);
  }

  /** Adoption takes the killed paths from disk, listing, session and the three maps repairs are made from,
      marks what it takes on at its own moment, and leaves all else alone. */
  lemma AdoptExactly(n: State, theirs: TimeMap, now: int)
    ensures var after := Adopt(n, theirs, now);
            && after.written == n.written && after.origins == n.origins && after.peers == n.peers
            && LessKilled(n, theirs, now, n.disk, after.disk)
            && LessKilled(n, theirs, now, n.former, after.former)
            && LessKilled(n, theirs, now, n.applied, after.applied)
            && LessKilled(n, theirs, now, n.announcements, after.announcements)
            && LessKilled(n, theirs, now, n.pending, after.pending)
            && (forall t :: t in after.session <==> t in n.session && !IsKilled(n, theirs, now, t.path))
            && forall q :: (q in after.graves <==> q in n.graves || IsTakenOn(n, theirs, now, q))
                           && (q in after.graves ==>
                                 after.graves[q] == if IsTakenOn(n, theirs, now, q) then theirs[q] else n.graves[q])
  {
    var news := Adoptable(theirs, n.former, n.graves, now);
    var killed := news.Keys * n.former.Keys;
    AdoptFieldwise(n, theirs, now);
    forall q
      ensures q in news <==> IsTakenOn(n, theirs, now, q)
      ensures q in news ==> news[q] == theirs[q]
      ensures q in killed <==> IsKilled(n, theirs, now, q)
    {
      NewsAreTakenOn(n, theirs, now, q);
    }
    hide IsTakenOn, IsKilled, LessKilled, Adoptable, Adopt;
    Lessened(n, theirs, now, n.disk, killed);
    Lessened(n, theirs, now, n.former, killed);
    Lessened(n, theirs, now, n.applied, killed);
    Lessened(n, theirs, now, n.announcements, killed);
    Lessened(n, theirs, now, n.pending, killed);
  }

  lemma AdoptFieldwise(n: State, theirs: TimeMap, now: int)
    ensures var news, after := Adoptable(theirs, n.former, n.graves, now), Adopt(n, theirs, now);
            var killed := news.Keys * n.former.Keys;
            && after.written == n.written && after.origins == n.origins && after.peers == n.peers
            && after.disk == n.disk - killed && after.former == n.former - killed
            && after.applied == n.applied - killed && after.announcements == n.announcements - killed
            && after.pending == n.pending - killed && after.graves == n.graves + news
            && forall t :: t in after.session <==> t in n.session && t.path !in killed
  {
    hide Adoptable;
  }

  lemma Lessened<V>(n: State, theirs: TimeMap, now: int, m: map<Path, V>, killed: set<Path>)
    requires forall q :: q in killed <==> IsKilled(n, theirs, now, q)
    ensures LessKilled(n, theirs, now, m, m - killed)
  {
  }

  /** Of a digest, what adoption leaves to do is to arm the gaps. */
  lemma DigestExactly(n: State, held: Bytes, graves: Bytes, own: Bytes, wall: int, steady: int)
    ensures var adopted := Adopt(n, Decoded(graves), wall);
            Receive(n, DigestOf(held, graves), own, wall, steady)
            == adopted.(pending := Arm(adopted.pending, Gaps(adopted.former, adopted.graves, Decoded(held)), steady))
  {
  }

  /** A root hash changes what is on record of its sender, unless that is this node, and nothing else. */
  lemma StateExactly(n: State, root: Bytes, endpoint: Bytes, own: Bytes, wall: int, steady: int)
    ensures Receive(n, StateOf(root, endpoint), own, wall, steady)
            == if endpoint == own then n else n.(peers := n.peers[endpoint := Heard(root, steady)])
  {
  }
}
