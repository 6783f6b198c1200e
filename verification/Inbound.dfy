/** A message from its parts on the wire to what it makes of the node. */
module Inbound {
  import opened Paths
  import opened Decimal
  import opened Wire
  import opened Reconcile
  import opened Ladder
  import opened Node
  import opened Messages

  /** What loading a torrent reads out of its bytes. */
  type Loader = Bytes -> Hash

  /** Parts that name no path, or one without NUL. */
  predicate Named(parts: seq<Bytes>) {
    match Accept(parts)
    case Ok(Added(_, _, path)) => NUL !in path
    case Ok(Removed(path, _)) => NUL !in path
    case _ => true
  }

  function Understood(r: Request, info: Loader): (m: Incoming)
    requires r.Added? || r.Removed? ==> NUL !in r.path
  {
    match r
    case Added(torrent, origin, path) => AddFile(Announcement(torrent, info(torrent)), origin, path)
    case Removed(path, deleted) => RemoveFile(path, deleted)
    case Stated(root, endpoint) => StateOf(root, endpoint)
    case Digested(held, graves) => DigestOf(held, graves)
  }

  /** Parts that are refused change nothing. */
  function Handled(n: State, parts: seq<Bytes>, info: Loader, own: Bytes, wall: int, steady: int): (after: State)
    requires Named(parts)
  {
    match Accept(parts)
    case Err(_) => n
    case Ok(r) => Receive(n, Understood(r, info), own, wall, steady)
  }

  /** What one node publishes is received as that very thing: a create with its time and path, a
      deletion with its moment, a root hash on record under its sender unless that is this node, and a
      digest as the two maps it was made of. */
  lemma PublishedArrives(n: State, m: Message, info: Loader, own: Bytes, wall: int, steady: int)
    ensures Named(Parts(m))
    ensures var after := Handled(n, Parts(m), info, own, wall, steady);
            match m
            case Create(torrent, origin, path) =>
              after == Receive(n, AddFile(Announcement(torrent, info(torrent)), origin, path), own, wall, steady)
            case Remove(path, deleted) => after == Receive(n, RemoveFile(path, deleted), own, wall, steady)
            case State(root, endpoint) =>
              after == if endpoint == own then n else n.(peers := n.peers[endpoint := Heard(root, steady)])
            case Digest(_, held, graves) => after == Receive(n, DigestOf(held, graves), own, wall, steady)
  {
    PublishedIsRead(m);
  }

  lemma DigestArrives(n: State, target: Path, held: TimeMap, graves: TimeMap, info: Loader, own: Bytes, wall: int, steady: int)
    ensures var m := Digest(target, Encoded(held), Encoded(graves));
            && Named(Parts(m))
            && var adopted := Adopt(n, graves, wall);
               Handled(n, Parts(m), info, own, wall, steady)
               == adopted.(pending := Arm(adopted.pending, Gaps(adopted.former, adopted.graves, held), steady))
  {
    hide Adopt, Arm, Gaps, Decoded, Encoded, Parts;
    PublishedArrives(n, Digest(target, Encoded(held), Encoded(graves)), info, own, wall, steady);
    RoundTrip(held);
    RoundTrip(graves);
  }

  /** Whatever is refused, for its verb or its length, changes nothing. */
  lemma RefusedChangesNothing(n: State, parts: seq<Bytes>, info: Loader, own: Bytes, wall: int, steady: int)
    requires Accept(parts).Err?
    ensures Named(parts) && Handled(n, parts, info, own, wall, steady) == n
  {
  }

  /** A message that lost parts on the way changes nothing. */
  lemma TruncatedChangesNothing(n: State, m: Message, k: nat, info: Loader, own: Bytes, wall: int, steady: int)
    requires k < |Parts(m)|
    ensures Named(Parts(m)[..k]) && Handled(n, Parts(m)[..k], info, own, wall, steady) == n
  {
    TruncatedIsRefused(m, k);
  }

  // ---- A time nobody can read ----

  /** On the wire: a create with a misspelled time leaves a file, or a deletion remembered of it, from
      after the epoch alone; a remove with one deletes the file whatever its time. */
  lemma UnreadableTimes(n: State, torrent: Bytes, text: Bytes, p: Path, info: Loader, own: Bytes, wall: int, steady: int)
    requires Misspelled(text) && p in n.disk
    ensures Named([CREATE, torrent, text, p]) && Named([REMOVE, p, text])
    ensures n.disk[p] > 0 || (p in n.graves && n.graves[p] > 0) ==>
      var after := Handled(n, [CREATE, torrent, text, p], info, own, wall, steady);
      after.disk == n.disk && after.session == n.session
    ensures p !in Handled(n, [REMOVE, p, text], info, own, wall, steady).disk
  {
    hide Receive, Misspelled;
    UnreadableParts(torrent, text, p);
    if n.disk[p] > 0 || (p in n.graves && n.graves[p] > 0) {
      UnreadableCreate(n, Announcement(torrent, info(torrent)), p, own, wall, steady);
    }
    UnreadableRemove(n, p, own, wall, steady);
  }

  lemma UnreadableParts(torrent: Bytes, text: Bytes, p: Path)
    requires Misspelled(text)
    ensures Accept([CREATE, torrent, text, p]) == Ok(Added(torrent, 0, p))
    ensures Accept([REMOVE, p, text]) == Ok(Removed(p, 0))
  {
    hide Misspelled, VerbOf;
    VerbOfPlain(CREATE);
    VerbOfPlain(REMOVE);
    assert FromTicks(text) == 0;
  }

  lemma UnreadableCreate(n: State, what: Announcement, p: Path, own: Bytes, wall: int, steady: int)
    requires p in n.disk && (n.disk[p] > 0 || (p in n.graves && n.graves[p] > 0))
    ensures var after := Receive(n, AddFile(what, 0, p), own, wall, steady);
            after.disk == n.disk && after.session == n.session
  {
    hide Serving, Stamped;
  }

  lemma UnreadableRemove(n: State, p: Path, own: Bytes, wall: int, steady: int)
    ensures p !in Receive(n, RemoveFile(p, 0), own, wall, steady).disk
  {
  }
}
