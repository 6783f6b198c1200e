/** What a node knows about one path, totally ordered, and the rules of `Reconcile` read as joins
    in that order. */
module Lattice {
  import opened Paths
  import opened Decimal
  import opened Wire
  import opened Reconcile

  datatype Cell = Nothing | Grave(at: Ticks) | File(at: Ticks)

  /** Later moments win; at one moment the file wins over the deletion. */
  predicate AtMost(a: Cell, b: Cell) {
    a.Nothing? ||
    (!b.Nothing? && (a.at < b.at || (a.at == b.at && (a.Grave? || b.File?))))
  }

  predicate Below(a: Cell, b: Cell) {
    AtMost(a, b) && a != b
  }

  function Join(a: Cell, b: Cell): (joined: Cell) {
    if AtMost(a, b) then b else a
  }

  lemma CellsAreTotallyOrdered(a: Cell, b: Cell, c: Cell)
    ensures AtMost(a, a)
    ensures AtMost(a, b) || AtMost(b, a)
    ensures AtMost(a, b) && AtMost(b, a) ==> a == b
    ensures AtMost(a, b) && AtMost(b, c) ==> AtMost(a, c)
  {
  }

  lemma JoinIsLeastUpperBound(a: Cell, b: Cell, c: Cell)
    ensures AtMost(a, Join(a, b)) && AtMost(b, Join(a, b))
    ensures AtMost(a, c) && AtMost(b, c) ==> AtMost(Join(a, b), c)
    ensures Join(a, b) == Join(b, a) && Join(a, Join(b, c)) == Join(Join(a, b), c)
  {
  }

  /** The two sets a digest carries: the files a node lists and the deletions it remembers. */
  datatype Tree = Tree(held: TimeMap, graves: TimeMap)

  ghost predicate Tidy(t: Tree) {
    t.held.Keys !! t.graves.Keys
  }

  function CellOf(t: Tree, p: Path): (cell: Cell) {
    if p in t.held then File(t.held[p]) else if p in t.graves then Grave(t.graves[p]) else Nothing
  }

  /** A tidy tree is its cells. */
  lemma CellsDecideTree(a: Tree, b: Tree)
    requires Tidy(a) && Tidy(b)
    requires forall p :: CellOf(a, p) == CellOf(b, p)
    ensures a == b
  {
    forall p
      ensures p in a.held <==> p in b.held
      ensures p in a.held ==> a.held[p] == b.held[p]
      ensures p in a.graves <==> p in b.graves
      ensures p in a.graves ==> a.graves[p] == b.graves[p]
    {
      assert CellOf(a, p) == CellOf(b, p);
    }
    assert a.held == b.held && a.graves == b.graves;
  }

  function GraveOf(graves: TimeMap, p: Path): (cell: Cell) {
    if p in graves then Grave(graves[p]) else Nothing
  }

  /** What is left of a tree once a peer's deletions have been adopted. */
  function Adopted(t: Tree, theirs: TimeMap, now: int): (after: Tree) {
    var news := Adoptable(theirs, t.held, t.graves, now);
    Tree(t.held - news.Keys, t.graves + news)
  }

  /** The tree once an announced copy has been received and settled. */
  function Received(t: Tree, p: Path, origin: Ticks): (after: Tree) {
    if p in t.graves && Beats(t.graves[p], origin) then t
    else if p in t.held && t.held[p] > origin then Tree(t.held, t.graves - {p})
    else Tree(t.held[p := origin], t.graves - {p})
  }

  /** Adoption joins every path with the peer's deletion of it, unless that has expired. */
  lemma AdoptionIsJoin(t: Tree, theirs: TimeMap, now: int, p: Path)
    requires Tidy(t)
    ensures Tidy(Adopted(t, theirs, now))
    ensures CellOf(Adopted(t, theirs, now), p) ==
            if p in theirs && Expired(theirs[p], now) then CellOf(t, p)
            else Join(CellOf(t, p), GraveOf(theirs, p))
  {
  }

  /** Receiving a create joins its path with the announced copy and leaves the rest alone. */
  lemma ReceptionIsJoin(t: Tree, p: Path, origin: Ticks, q: Path)
    requires Tidy(t)
    ensures Tidy(Received(t, p, origin))
    ensures CellOf(Received(t, p, origin), q) ==
            if q == p then Join(CellOf(t, q), File(origin)) else CellOf(t, q)
  {
  }

  /** A gap is a file strictly above what the peer has, as long as the peer's own deletions have
      been adopted first. */
  lemma GapsAreStrictlyAbove(t: Tree, peer: Tree, now: int, p: Path)
    requires Tidy(t) && Tidy(peer)
    requires p in peer.graves ==> !Expired(peer.graves[p], now)
    ensures var me := Adopted(t, peer.graves, now);
            p in Gaps(me.held, me.graves, peer.held)
            <==> CellOf(me, p).File? && Below(CellOf(peer, p), CellOf(me, p))
  {
    AdoptionIsJoin(t, peer.graves, now, p);
  }

  /** Adoption kills exactly the files strictly older than an unexpired deletion that the node does
      not remember already. A file that came back older than its own tombstone is therefore never
      killed by a peer repeating that tombstone: tidiness is what the join needs. */
  lemma KilledExactly(t: Tree, theirs: TimeMap, now: int, p: Path)
    requires p in t.held
    ensures p !in Adopted(t, theirs, now).held <==>
            p in theirs && !Expired(theirs[p], now) && t.held[p] < theirs[p]
            && (p in t.graves ==> t.graves[p] < theirs[p])
  {
  }

  lemma UntidyTreeKeepsADeadFile(p: Path)
    ensures var t := Tree(map[p := 3], map[p := 5]);
            !Tidy(t) && Adopted(t, map[p := 5], 5) == t && Beats(5, t.held[p])
  {
    var t := Tree(map[p := 3], map[p := 5]);
    assert p in t.held.Keys * t.graves.Keys;
    assert Adoptable(map[p := 5], t.held, t.graves, 5) == map[];
  }
}
