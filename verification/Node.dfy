/** One node: everything it remembers, and what each message or event makes of it. */
module Node {
  import opened Paths
  import opened Decimal
  import opened Wire
  import opened Reconcile
  import opened Ladder

  /** An info hash, as the number it is ordered by. It stands for the content of a file. */
  type Hash = int

  /** A bencoded torrent and the info hash it loads with. */
  datatype Announcement = Announcement(buffer: Bytes, content: Hash)

  datatype Applied = Applied(origin: Ticks, content: Hash)

  /** A torrent of the session and the file it serves. */
  datatype Torrent = Torrent(content: Hash, path: Path)

  datatype State = State(
    disk: TimeMap,                           // what `last_write_time` answers
    former: TimeMap,                         // the listing
    graves: TimeMap,                         // the tombstones
    written: TimeMap,                        // what each file looked like once libtorrent was done
    origins: TimeMap,                        // times waiting to be put back on files
    applied: map<Path, Applied>,             // what was last applied for each path
    announcements: map<Path, Announcement>,  // what each path was last announced with
    pending: Moments,                        // the repairs taken on
    session: set<Torrent>,
    peers: map<Bytes, Heard>)

  /** A message once `act` has judged its parts and loaded its torrent. */
  datatype Incoming =
    | AddFile(what: Announcement, origin: Ticks, path: Path)
    | RemoveFile(path: Path, deleted: Ticks)
    | StateOf(root: Bytes, endpoint: Bytes)
    | DigestOf(held: Bytes, graves: Bytes)

  datatype Outcome =
    | Ignored
    | Deleted(path: Path)
    | Made(path: Path, origin: Ticks, content: Hash, alreadyHeld: bool)
    | NothingToDo

  // ---- act ----

  /** `erase`: out of the session, then off the disk. */
  function Erased(n: State, p: Path): (after: State) {
    n.(session := (set t | t in n.session && t.path != p), disk := n.disk - {p})
  }

  /** Whether an announced file beats the copy on disk. */
  predicate Wins(n: State, p: Path, origin: Ticks, content: Hash) {
    if p !in n.disk then true
    else if origin != n.disk[p] then origin > n.disk[p]
    else if p !in n.applied || n.applied[p].origin != n.disk[p] then true
    else !(n.applied[p].content < content)
  }

  /** `remove_stale_torrents` and then `add_torrent`, which deduplicates on the info hash. */
  function Serving(session: set<Torrent>, p: Path, content: Hash): (served: set<Torrent>) {
    var kept := set t | t in session && (t.path != p || t.content == content);
    if exists t :: t in kept && t.content == content then kept else kept + {Torrent(content, p)}
  }

  function Act(n: State, m: Incoming): (acted: (State, Outcome)) {
    match m
    case RemoveFile(p, deleted) =>
      (Erased(n, p).(graves := Marked(n.graves, p, deleted)), Deleted(p))
    case AddFile(what, origin, p) =>
      if p in n.graves && Beats(n.graves[p], origin) then (n, Ignored)
      else
        var cleared := n.(graves := n.graves - {p});
        if !Wins(cleared, p, origin, what.content) then (cleared, Ignored)
        else (cleared.(session := Serving(n.session, p, what.content)),
              Made(p, origin, what.content, Torrent(what.content, p) in n.session))
    case StateOf(_, _) => (n, NothingToDo)
    case DigestOf(_, _) => (n, NothingToDo)
  }

  // ---- stamp_and_remember ----

  function Stamped(n: State, p: Path, writtenBy: Ticks): (after: State) {
    if p !in n.disk then n
    else if n.disk[p] > writtenBy then n.(origins := n.origins - {p})
    else
      var time := if p in n.origins then n.origins[p] else n.disk[p];
      n.(disk := n.disk[p := time], origins := n.origins - {p},
         written := n.written[p := time], former := n.former[p := time])
  }

  // ---- adopt and read_digest ----

  function Forgotten(n: State, ps: set<Path>): (after: State) {
    n.(announcements := n.announcements - ps, applied := n.applied - ps, pending := n.pending - ps)
  }

  function Adopt(n: State, theirs: TimeMap, now: int): (after: State) {
    var news := Adoptable(theirs, n.former, n.graves, now);
    var killed := news.Keys * n.former.Keys;
    Forgotten(n, killed).(
      graves := n.graves + news,
      former := n.former - killed,
      disk := n.disk - killed,
      session := (set t | t in n.session && t.path !in killed))
  }

  function DigestRead(n: State, held: Bytes, graves: Bytes, wall: int, steady: int): (after: State) {
    var adopted := Adopt(n, Decoded(graves), wall);
    adopted.(pending :=
      Arm(adopted.pending, Gaps(adopted.former, adopted.graves, Decoded(held)), steady))
  }

  // ---- receive_one ----

  /** What follows an applied create. */
  function Noted(n: State, out: Outcome, what: Announcement): (after: State)
    requires out.Made?
  {
    var p := out.path;
    var awaited := n.(origins := n.origins[p := out.origin]);
    var stamped := if out.alreadyHeld then Stamped(awaited, p, out.origin) else awaited;
    stamped.(announcements := stamped.announcements[p := what],
             applied := stamped.applied[p := Applied(out.origin, out.content)],
             pending := stamped.pending - {p})
  }

  function Receive(n: State, m: Incoming, own: Bytes, wall: int, steady: int): (after: State) {
    var (acted, out) := Act(n, m);
    match m
    case RemoveFile(p, _) => Forgotten(acted, {p})
    case AddFile(what, _, _) => if out.Made? then Noted(acted, out, what) else acted
    case StateOf(root, endpoint) =>
      if endpoint == own then acted
      else acted.(peers := acted.peers[endpoint := Heard(root, steady)])
    case DigestOf(held, graves) => DigestRead(acted, held, graves, wall, steady)
  }
}
