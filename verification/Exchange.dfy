/** One digest answered, and a digest each way: what two nodes hold afterwards. */
module Exchange {
  import opened Paths
  import opened Decimal
  import opened Wire
  import opened RootHash
  import opened Reconcile
  import opened Lattice
  import opened Node
  import opened Settle

  ghost predicate Fresh(graves: TimeMap, now: int) {
    forall p :: p in graves ==> !Expired(graves[p], now)
  }

  /** A repair on its way: the create, and the moments its transfer is written and flushed at should
      one be needed. */
  datatype Parcel = Parcel(path: Path, origin: Ticks, what: Announcement, written: Ticks, flushed: Ticks)

  function DeliverAll(n: State, ps: seq<Parcel>): (after: State)
    decreases |ps|
  {
    if |ps| == 0 then n
    else DeliverAll(Delivered(n, ps[0].what, ps[0].origin, ps[0].path, ps[0].written, ps[0].flushed), ps[1..])
  }

  /** What a batch of repairs says about one path. */
  function Offered(ps: seq<Parcel>, p: Path): (best: Cell)
    decreases |ps|
  {
    if |ps| == 0 then Nothing
    else if ps[0].path == p then Join(File(ps[0].origin), Offered(ps[1..], p))
    else Offered(ps[1..], p)
  }

  /** Every torrent is of the file it is announced for, and no flush is noticed before its write. */
  ghost predicate Genuine(ps: seq<Parcel>, fileOf: Hash -> Path) {
    forall i :: 0 <= i < |ps| ==> ps[i].written <= ps[i].flushed && fileOf(ps[i].what.content) == ps[i].path
  }

  lemma {:induction false} BatchIsJoin(n: State, ps: seq<Parcel>, p: Path, fileOf: Hash -> Path)
    requires Settled(n, fileOf) && Genuine(ps, fileOf)
    ensures Settled(DeliverAll(n, ps), fileOf)
    ensures CellAt(DeliverAll(n, ps), p) == Join(CellAt(n, p), Offered(ps, p))
    decreases |ps|
  {
    if |ps| > 0 {
      var c := ps[0];
      DeliveryIsReception(n, c.what, c.origin, c.path, c.written, c.flushed, fileOf);
      ReceptionIsJoin(View(n), c.path, c.origin, p);
      var next := Delivered(n, c.what, c.origin, c.path, c.written, c.flushed);
      BatchIsJoin(next, ps[1..], p, fileOf);
      JoinIsLeastUpperBound(CellAt(n, p), File(c.origin), Offered(ps[1..], p));
    }
  }

  /** `ps` answers a digest on behalf of `from`: only files it lists, with the times it lists them
      at, in any order and as often as they come, and every gap among them. */
  ghost predicate Answers(ps: seq<Parcel>, from: State, gaps: seq<Path>, fileOf: Hash -> Path) {
    && Genuine(ps, fileOf)
    && (forall i :: 0 <= i < |ps| ==> ps[i].path in from.former && ps[i].origin == from.former[ps[i].path])
    && (forall p :: p in gaps ==> exists i :: 0 <= i < |ps| && ps[i].path == p)
  }

  lemma {:induction false} OfferedOne(ps: seq<Parcel>, from: State, p: Path)
    requires forall i :: 0 <= i < |ps| ==> ps[i].path in from.former && ps[i].origin == from.former[ps[i].path]
    ensures Offered(ps, p) == if exists i :: 0 <= i < |ps| && ps[i].path == p then File(from.former[p]) else Nothing
    decreases |ps|
  {
    if |ps| > 0 {
      OfferedOne(ps[1..], from, p);
      if ps[0].path == p {
        assert exists i :: 0 <= i < |ps| && ps[i].path == p;
      } else if i :| 0 <= i < |ps| && ps[i].path == p {
        assert ps[1..][i - 1].path == p;
      }
    }
  }

  /** What a node makes of another's digest. */
  ghost function Asked(reader: State, asker: State, wall: int, steady: int): (after: State) {
    DigestRead(reader, Encoded(asker.former), Encoded(asker.graves), wall, steady)
  }

  lemma ReaderAdopts(a: State, b: State, wall: int, steady: int, fileOf: Hash -> Path)
    requires Settled(b, fileOf)
    ensures Settled(Asked(b, a, wall, steady), fileOf)
    ensures View(Asked(b, a, wall, steady)) == Adopted(View(b), a.graves, wall)
  {
    RoundTrip(a.graves);
    DigestIsAdoption(b, Encoded(a.former), Encoded(a.graves), wall, steady, fileOf);
  }

  lemma AskerIsRepaired(a: State, me: State, ps: seq<Parcel>, p: Path, fileOf: Hash -> Path)
    requires Settled(a, fileOf) && Answers(ps, me, Gaps(me.former, me.graves, a.former), fileOf)
    requires p in Gaps(me.former, me.graves, a.former) <==>
             CellAt(me, p).File? && Below(CellAt(a, p), CellAt(me, p))
    ensures Settled(DeliverAll(a, ps), fileOf)
    ensures CellAt(DeliverAll(a, ps), p) ==
            if CellAt(me, p).File? then Join(CellAt(a, p), CellAt(me, p)) else CellAt(a, p)
  {
    BatchIsJoin(a, ps, p, fileOf);
    OfferedOne(ps, me, p);
  }

  ghost predicate Answered(a: State, b: State, wall: int, steady: int, ps: seq<Parcel>, fileOf: Hash -> Path) {
    var b' := Asked(b, a, wall, steady);
    Answers(ps, b', Gaps(b'.former, b'.graves, a.former), fileOf)
  }

  /** One direction: `a` asks, `b` reads the digest and repairs. `b` is joined with what `a` knows
      deleted, and `a` with the files `b` then holds. */
  lemma OneWay(a: State, b: State, wall: int, steady: int, ps: seq<Parcel>, p: Path, fileOf: Hash -> Path)
    requires Settled(a, fileOf) && Settled(b, fileOf) && Fresh(a.graves, wall) && Answered(a, b, wall, steady, ps, fileOf)
    ensures var b', a' := Asked(b, a, wall, steady), DeliverAll(a, ps);
            && Settled(b', fileOf) && Settled(a', fileOf)
            && CellAt(b', p) == Join(CellAt(b, p), GraveOf(a.graves, p))
            && CellAt(a', p) == if CellAt(b', p).File? then Join(CellAt(a, p), CellAt(b', p)) else CellAt(a, p)
  {
    ReaderAdopts(a, b, wall, steady, fileOf);
    AdoptionIsJoin(View(b), a.graves, wall, p);
    GapsAreStrictlyAbove(View(b), View(a), wall, p);
    AskerIsRepaired(a, Asked(b, a, wall, steady), ps, p, fileOf);
  }

  // ---- Both directions ----

  /** A digest of `a` answered by `b`, and then one of `b` answered by `a`. */
  datatype Trip = Trip(wall: int, steady: int, there: seq<Parcel>, wall': int, steady': int, back: seq<Parcel>)

  ghost function Ended(a: State, b: State, r: Trip): (ended: (State, State)) {
    var b1 := Asked(b, a, r.wall, r.steady);
    var a1 := DeliverAll(a, r.there);
    (Asked(a1, b1, r.wall', r.steady'), DeliverAll(b1, r.back))
  }

  ghost predicate Carried(a: State, b: State, r: Trip, fileOf: Hash -> Path) {
    var b1, a1 := Asked(b, a, r.wall, r.steady), DeliverAll(a, r.there);
    Answered(a, b, r.wall, r.steady, r.there, fileOf) && Answered(b1, a1, r.wall', r.steady', r.back, fileOf)
  }

  ghost predicate FreshBoth(a: State, b: State, now: int) {
    Fresh(a.graves, now) && Fresh(b.graves, now)
  }

  lemma CellsAreFresh(a: State, b: State, c: State, now: int)
    requires Tidy(View(c)) && FreshBoth(a, b, now)
    requires forall p :: CellAt(c, p).Grave? ==> CellAt(c, p) == CellAt(a, p) || CellAt(c, p) == CellAt(b, p)
    ensures Fresh(c.graves, now)
  {
    forall p | p in c.graves
      ensures !Expired(c.graves[p], now)
    {
      assert p !in c.former;
      assert CellAt(c, p) == Grave(c.graves[p]);
    }
  }

  function GravePart(c: Cell): (part: Cell) {
    if c.Grave? then c else Nothing
  }

  /** Deletions one way, files back, and the same the other way round, is a join. */
  lemma FourHalvesJoin(x: Cell, y: Cell)
    ensures var y1 := Join(y, GravePart(x));
            var x1 := if y1.File? then Join(x, y1) else x;
            var x2 := Join(x1, GravePart(y1));
            var y2 := if x2.File? then Join(y1, x2) else y1;
            x2 == Join(x, y) && y2 == Join(x, y)
  {
  }

  /** Half way: both nodes are still settled and remember no deletion the two did not start with. */
  lemma HalfWay(a: State, b: State, r: Trip, fileOf: Hash -> Path)
    requires Settled(a, fileOf) && Settled(b, fileOf) && Carried(a, b, r, fileOf)
    requires FreshBoth(a, b, r.wall) && FreshBoth(a, b, r.wall')
    ensures var b1, a1 := Asked(b, a, r.wall, r.steady), DeliverAll(a, r.there);
            Settled(a1, fileOf) && Settled(b1, fileOf) && Fresh(b1.graves, r.wall')
  {
    var b1 := Asked(b, a, r.wall, r.steady);
    OneWay(a, b, r.wall, r.steady, r.there, [], fileOf);
    forall p
      ensures CellAt(b1, p).Grave? ==> CellAt(b1, p) == CellAt(a, p) || CellAt(b1, p) == CellAt(b, p)
    {
      OneWay(a, b, r.wall, r.steady, r.there, p, fileOf);
      GraveOrNot(a, p);
    }
    CellsAreFresh(a, b, b1, r.wall');
  }

  /** After a digest and its repairs each way both nodes hold, path by path, the greater of what the
      two of them started with. */
  lemma ExchangeJoins(a: State, b: State, r: Trip, p: Path, fileOf: Hash -> Path)
    requires Settled(a, fileOf) && Settled(b, fileOf) && Carried(a, b, r, fileOf)
    requires FreshBoth(a, b, r.wall) && FreshBoth(a, b, r.wall')
    ensures var (a2, b2) := Ended(a, b, r);
            && Settled(a2, fileOf) && Settled(b2, fileOf)
            && CellAt(a2, p) == Join(CellAt(a, p), CellAt(b, p))
            && CellAt(b2, p) == Join(CellAt(a, p), CellAt(b, p))
  {
    hide Asked, DeliverAll, CellAt, Answered, Fresh, Settled;
    var b1, a1 := Asked(b, a, r.wall, r.steady), DeliverAll(a, r.there);
    HalfWay(a, b, r, fileOf);
    OneWay(a, b, r.wall, r.steady, r.there, p, fileOf);
    OneWay(b1, a1, r.wall', r.steady', r.back, p, fileOf);
    SettledIsTidy(a, fileOf);
    SettledIsTidy(b1, fileOf);
    GraveOrNot(a, p);
    GraveOrNot(b1, p);
    FourHalvesJoin(CellAt(a, p), CellAt(b, p));
  }

  lemma GraveOrNot(n: State, p: Path)
    requires Tidy(View(n))
    ensures GraveOf(n.graves, p) == if CellAt(n, p).Grave? then CellAt(n, p) else Nothing
  {
  }

  /** Nothing to adopt and nothing to repair between two nodes that hold the same. */
  lemma EqualsAreQuiet(a: State, b: State, now: int)
    requires Tidy(View(a)) && View(a) == View(b)
    ensures Adoptable(b.graves, a.former, a.graves, now) == map[]
    ensures Gaps(a.former, a.graves, b.former) == []
  {
    var gaps := set p | p in a.former && IsGap(p, a.former, a.graves, b.former);
    assert gaps == {};
  }

  lemma ExchangeAgrees(a: State, b: State, r: Trip, fileOf: Hash -> Path)
    requires Settled(a, fileOf) && Settled(b, fileOf) && Carried(a, b, r, fileOf)
    requires FreshBoth(a, b, r.wall) && FreshBoth(a, b, r.wall')
    ensures var (a2, b2) := Ended(a, b, r); Settled(a2, fileOf) && Settled(b2, fileOf) && View(a2) == View(b2)
  {
    hide Asked, DeliverAll, Carried, FreshBoth;
    var (a2, b2) := Ended(a, b, r);
    forall p
      ensures CellOf(View(a2), p) == CellOf(View(b2), p)
    {
      ExchangeJoins(a, b, r, p, fileOf);
    }
    ExchangeJoins(a, b, r, [], fileOf);
    CellsDecideTree(View(a2), View(b2));
  }

  /** And then the pair is done: equal trees, equal forms, equal root hashes, nothing to adopt and
      nothing to repair either way. */
  lemma ExchangeConverges(a: State, b: State, r: Trip, now: int, sha: Bytes -> Bytes, fileOf: Hash -> Path)
    requires Settled(a, fileOf) && Settled(b, fileOf) && Carried(a, b, r, fileOf)
    requires FreshBoth(a, b, r.wall) && FreshBoth(a, b, r.wall')
    ensures var (a2, b2) := Ended(a, b, r);
            && Encoded(a2.former) == Encoded(b2.former) && Encoded(a2.graves) == Encoded(b2.graves)
            && Root(sha, a2.former, a2.graves) == Root(sha, b2.former, b2.graves)
            && Adoptable(a2.graves, b2.former, b2.graves, now) == map[]
            && Adoptable(b2.graves, a2.former, a2.graves, now) == map[]
            && Gaps(a2.former, a2.graves, b2.former) == []
            && Gaps(b2.former, b2.graves, a2.former) == []
  {
    var (a2, b2) := Ended(a, b, r);
    ExchangeAgrees(a, b, r, fileOf);
    EqualsAreQuiet(a2, b2, now);
    EqualsAreQuiet(b2, a2, now);
  }

  /** A node below another at some path is raised there in one of the two directions: by the repair
      that answers its own digest or by the deletion in the other's. */
  lemma LowerIsRaised(a: State, b: State, wall: int, steady: int, ps: seq<Parcel>, p: Path, fileOf: Hash -> Path)
    requires Settled(a, fileOf) && Settled(b, fileOf) && Fresh(b.graves, wall) && Fresh(a.graves, wall)
    requires Below(CellAt(a, p), CellAt(b, p)) && Answered(a, b, wall, steady, ps, fileOf)
    ensures Below(CellAt(a, p), CellAt(DeliverAll(a, ps), p))
            || Below(CellAt(a, p), CellAt(Asked(a, b, wall, steady), p))
  {
    OneWay(a, b, wall, steady, ps, p, fileOf);
    ReaderAdopts(b, a, wall, steady, fileOf);
    AdoptionIsJoin(View(a), b.graves, wall, p);
    GraveOrNot(a, p);
    GraveOrNot(b, p);
  }

  /** Two settled nodes whose encoded forms differ differ at a path, and one of them is below there. */
  lemma FormsShowAPath(a: State, b: State) returns (p: Path)
    requires Tidy(View(a)) && Tidy(View(b))
    requires Encoded(a.former) != Encoded(b.former) || Encoded(a.graves) != Encoded(b.graves)
    ensures Below(CellAt(a, p), CellAt(b, p)) || Below(CellAt(b, p), CellAt(a, p))
  {
    hide Encoded;
    if forall q :: CellOf(View(a), q) == CellOf(View(b), q) {
      CellsDecideTree(View(a), View(b));
    }
    p :| CellOf(View(a), p) != CellOf(View(b), p);
    CellsAreTotallyOrdered(CellAt(a, p), CellAt(b, p), Nothing);
  }

  /** Whether asking `b` raises one of the two anywhere: the asker by a repair or the asked by a
      deletion. */
  ghost predicate Raises(a: State, b: State, wall: int, steady: int, ps: seq<Parcel>) {
    exists p :: Below(CellAt(a, p), CellAt(DeliverAll(a, ps), p))
                || Below(CellAt(b, p), CellAt(Asked(b, a, wall, steady), p))
  }

  /** Whenever two settled nodes' forms differ, asking one way or asking the other way strictly raises
      one of them at some path. */
  lemma DifferenceIsProductive(a: State, b: State, wall: int, steady: int, there: seq<Parcel>, back: seq<Parcel>,
                               fileOf: Hash -> Path)
    requires Settled(a, fileOf) && Settled(b, fileOf) && FreshBoth(a, b, wall)
    requires Answered(a, b, wall, steady, there, fileOf) && Answered(b, a, wall, steady, back, fileOf)
    requires Encoded(a.former) != Encoded(b.former) || Encoded(a.graves) != Encoded(b.graves)
    ensures Raises(a, b, wall, steady, there) || Raises(b, a, wall, steady, back)
  {
    hide Asked, DeliverAll, CellAt, Answered, Settled, Encoded;
    SettledIsTidy(a, fileOf);
    SettledIsTidy(b, fileOf);
    var p := FormsShowAPath(a, b);
    if Below(CellAt(a, p), CellAt(b, p)) {
      LowerIsRaised(a, b, wall, steady, there, p, fileOf);
    } else {
      LowerIsRaised(b, a, wall, steady, back, p, fileOf);
    }
  }
}
