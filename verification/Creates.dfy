/** Creates of one path, each followed through before the next: which copy is left at the end. */
module Creates {
  import opened Paths
  import opened Decimal
  import opened Node
  import opened Settle

  /** What a node has at one path: a copy and, when it knows which announcement the copy it has now
      came from, what that announcement's content hashes to. */
  datatype Copy = Absent | Buried(at: Ticks) | Unaccounted(at: Ticks) | Accounted(at: Ticks, content: Hash)

  function CopyAt(n: State, p: Path): (copy: Copy) {
    if p in n.disk then
      if p in n.applied && n.applied[p].origin == n.disk[p] then Accounted(n.disk[p], n.applied[p].content)
      else Unaccounted(n.disk[p])
    else if p in n.graves then Buried(n.graves[p])
    else Absent
  }

  function Kind(c: Copy): (kind: int) {
    if c.Accounted? then 2 else if c.Unaccounted? then 1 else 0
  }

  /** Later copies are greater; at one moment a deletion is least, a copy the node cannot account for
      comes next, and among the rest the lower hash is the greater copy. */
  predicate NoGreater(a: Copy, b: Copy) {
    a.Absent? ||
    (!b.Absent? &&
      (a.at < b.at ||
        (a.at == b.at && (Kind(a) < Kind(b)
                          || (Kind(a) == Kind(b) && (a.Accounted? ==> b.content <= a.content))))))
  }

  function Greater(a: Copy, b: Copy): (greater: Copy) {
    if NoGreater(a, b) then b else a
  }

  lemma CopiesAreTotallyOrdered(a: Copy, b: Copy, c: Copy)
    ensures NoGreater(a, b) || NoGreater(b, a)
    ensures NoGreater(a, b) && NoGreater(b, a) ==> a == b
    ensures NoGreater(a, b) && NoGreater(b, c) ==> NoGreater(a, c)
  {
  }

  datatype Create = Create(what: Announcement, origin: Ticks, written: Ticks, flushed: Ticks)

  function CopyOf(c: Create): (copy: Copy) {
    Accounted(c.origin, c.what.content)
  }

  function Apply(n: State, p: Path, c: Create): (after: State) {
    Delivered(n, c.what, c.origin, p, c.written, c.flushed)
  }

  function ApplyAll(n: State, p: Path, cs: seq<Create>): (after: State)
    decreases |cs|
  {
    if |cs| == 0 then n else ApplyAll(Apply(n, p, cs[0]), p, cs[1..])
  }

  /** `wins` and the tombstone guard together take the greater of the copy here and the announced
      one. */
  lemma CreateTakesTheGreater(n: State, p: Path, c: Create, fileOf: Hash -> Path)
    requires Settled(n, fileOf) && Good(c, p, fileOf)
    ensures Settled(Apply(n, p, c), fileOf)
    ensures CopyAt(Apply(n, p, c), p) == Greater(CopyAt(n, p), CopyOf(c))
  {
    hide Delivered, Serving;
    DeliveryIsReception(n, c.what, c.origin, p, c.written, c.flushed, fileOf);
    var out := Act(n, AddFile(c.what, c.origin, p)).1;
    if out.Made? {
      AppliedEndsAtOrigin(n, c.what, c.origin, p, c.written, c.flushed);
    } else {
      RefusedChangesNoFile(n, c.what, c.origin, p, c.written, c.flushed);
    }
  }

  /** A create of this path whose transfer, should one start, is flushed after it is written. */
  ghost predicate Good(c: Create, p: Path, fileOf: Hash -> Path) {
    c.written <= c.flushed && fileOf(c.what.content) == p
  }

  ghost predicate AllGood(cs: seq<Create>, p: Path, fileOf: Hash -> Path) {
    forall i :: 0 <= i < |cs| ==> Good(cs[i], p, fileOf)
  }

  ghost predicate Among(copy: Copy, start: Copy, cs: seq<Create>) {
    copy == start || exists i :: 0 <= i < |cs| && CopyOf(cs[i]) == copy
  }

  /** After any sequence of creates the copy left is the greatest of the starting one and all that
      were announced. */
  lemma {:induction false} GreatestIsLeft(n: State, p: Path, cs: seq<Create>, fileOf: Hash -> Path)
    requires Settled(n, fileOf) && AllGood(cs, p, fileOf)
    ensures var copy := CopyAt(ApplyAll(n, p, cs), p);
            && Among(copy, CopyAt(n, p), cs)
            && NoGreater(CopyAt(n, p), copy)
            && forall i :: 0 <= i < |cs| ==> NoGreater(CopyOf(cs[i]), copy)
    decreases |cs|
  {
    hide Settled, CopyAt, Apply, CopyOf, NoGreater;
    var start := CopyAt(n, p);
    if |cs| == 0 {
      CopiesAreTotallyOrdered(start, start, start);
    } else {
      var next, rest := Apply(n, p, cs[0]), cs[1..];
      CreateTakesTheGreater(n, p, cs[0], fileOf);
      GreatestIsLeft(next, p, rest, fileOf);
      var mid, copy := CopyAt(next, p), CopyAt(ApplyAll(n, p, cs), p);
      CopiesAreTotallyOrdered(start, CopyOf(cs[0]), copy);
      CopiesAreTotallyOrdered(start, mid, copy);
      CopiesAreTotallyOrdered(CopyOf(cs[0]), mid, copy);
      CopiesAreTotallyOrdered(CopyOf(cs[0]), CopyOf(cs[0]), copy);
      CopiesAreTotallyOrdered(start, start, copy);
      if copy != mid {
        var i :| 0 <= i < |rest| && CopyOf(rest[i]) == copy;
        assert cs[i + 1] == rest[i];
      }
      forall i | 0 <= i < |cs|
        ensures NoGreater(CopyOf(cs[i]), copy)
      {
        if i > 0 {
          assert cs[i] == rest[i - 1];
        }
      }
    }
  }

  ghost function CopiesOf(cs: seq<Create>): (copies: set<Copy>) {
    set i | 0 <= i < |cs| :: CopyOf(cs[i])
  }

  /** So the order of the creates and how often each came make no difference: two sequences that
      announce the same copies leave the same one. */
  lemma OrderMakesNoDifference(n: State, p: Path, cs: seq<Create>, ds: seq<Create>, fileOf: Hash -> Path)
    requires Settled(n, fileOf) && AllGood(cs, p, fileOf) && AllGood(ds, p, fileOf) && CopiesOf(cs) == CopiesOf(ds)
    ensures CopyAt(ApplyAll(n, p, cs), p) == CopyAt(ApplyAll(n, p, ds), p)
  {
    hide Settled, CopyAt, ApplyAll, CopyOf, NoGreater;
    GreatestIsLeft(n, p, cs, fileOf);
    GreatestIsLeft(n, p, ds, fileOf);
    AsGreat(n, p, cs, ds, fileOf);
    AsGreat(n, p, ds, cs, fileOf);
    var a, b := CopyAt(ApplyAll(n, p, cs), p), CopyAt(ApplyAll(n, p, ds), p);
    CopiesAreTotallyOrdered(a, b, a);
  }

  lemma AsGreat(n: State, p: Path, cs: seq<Create>, ds: seq<Create>, fileOf: Hash -> Path)
    requires Settled(n, fileOf) && AllGood(cs, p, fileOf) && AllGood(ds, p, fileOf) && CopiesOf(cs) <= CopiesOf(ds)
    ensures NoGreater(CopyAt(ApplyAll(n, p, cs), p), CopyAt(ApplyAll(n, p, ds), p))
  {
    hide Settled, CopyAt, ApplyAll, CopyOf, NoGreater;
    GreatestIsLeft(n, p, cs, fileOf);
    GreatestIsLeft(n, p, ds, fileOf);
    var a := CopyAt(ApplyAll(n, p, cs), p);
    if a != CopyAt(n, p) {
      assert a in CopiesOf(cs);
      var i :| 0 <= i < |ds| && CopyOf(ds[i]) == a;
    }
  }

  // ---- A live remove is no such join ----

  function Removed(n: State, p: Path, deleted: Ticks): (after: State) {
    Receive(n, RemoveFile(p, deleted), [], 0, 0)
  }

  /** A `remove` deletes whatever is there, however new: only the tombstone is a maximum. */
  lemma RemoveAlwaysDeletes(n: State, p: Path, deleted: Ticks)
    ensures CopyAt(Removed(n, p, deleted), p) ==
            Buried(if p in n.graves && n.graves[p] >= deleted then n.graves[p] else deleted)
  {
  }

  /** It is one exactly when it is the newer of the two: of a file and a deletion, whether the file is
      strictly older than the deletion. */
  lemma RemoveIsJoinExactlyIfNewer(n: State, p: Path, deleted: Ticks)
    requires p in n.disk ==> p !in n.graves
    ensures CopyAt(Removed(n, p, deleted), p) == Greater(CopyAt(n, p), Buried(deleted))
            <==> (p in n.disk ==> n.disk[p] < deleted)
  {
    RemoveAlwaysDeletes(n, p, deleted);
  }

  lemma CreateAfterRemove(n: State, p: Path, c: Create, deleted: Ticks, fileOf: Hash -> Path)
    requires Settled(n, fileOf) && Good(c, p, fileOf)
    ensures var removed := Removed(n, p, deleted);
            CopyAt(Apply(removed, p, c), p) ==
            if removed.graves[p] > c.origin then CopyAt(removed, p) else CopyOf(c)
  {
    hide Delivered, Serving;
    var removed := Removed(n, p, deleted);
    if Act(removed, AddFile(c.what, c.origin, p)).1.Made? {
      AppliedEndsAtOrigin(removed, c.what, c.origin, p, c.written, c.flushed);
    } else {
      RefusedChangesNoFile(removed, c.what, c.origin, p, c.written, c.flushed);
    }
  }

  /** So a create and a remove of one path leave the same, whichever comes first, exactly when the
      create loses to a deletion either way: to the one arriving or to one already remembered. A tie
      keeps the file only if the remove comes first. */
  lemma CreateAndRemoveCommute(n: State, p: Path, c: Create, deleted: Ticks, fileOf: Hash -> Path)
    requires Settled(n, fileOf) && Good(c, p, fileOf)
    ensures CopyAt(Removed(Apply(n, p, c), p, deleted), p) == CopyAt(Apply(Removed(n, p, deleted), p, c), p)
            <==> deleted > c.origin || (p in n.graves && n.graves[p] > c.origin)
  {
    hide Delivered, Serving, Apply;
    CreateAfterRemove(n, p, c, deleted, fileOf);
    RemoveAlwaysDeletes(n, p, deleted);
    RemoveAlwaysDeletes(Apply(n, p, c), p, deleted);
    GraveAfterCreate(n, p, c, fileOf);
  }

  lemma GraveAfterCreate(n: State, p: Path, c: Create, fileOf: Hash -> Path)
    requires Settled(n, fileOf) && Good(c, p, fileOf)
    ensures Apply(n, p, c).graves ==
            if p in n.graves && n.graves[p] > c.origin then n.graves else n.graves - {p}
  {
    hide Delivered, Serving;
    if Act(n, AddFile(c.what, c.origin, p)).1.Made? {
      AppliedEndsAtOrigin(n, c.what, c.origin, p, c.written, c.flushed);
    } else {
      RefusedChangesNoFile(n, c.what, c.origin, p, c.written, c.flushed);
    }
  }

  // ---- A time nobody can read ----

  /** A create whose time is misspelled is taken for one made at the epoch. It overwrites nothing
      exactly when the file here, or the deletion remembered of it, is from after the epoch: what is
      from before it, or from the epoch itself, can lose to it. */
  lemma MisspelledOverwritesNothing(n: State, p: Path)
    requires p in n.disk
    ensures (forall text, what :: Misspelled(text) ==> !Act(n, AddFile(what, FromTicks(text), p)).1.Made?)
            <==> n.disk[p] > 0 || (p in n.graves && n.graves[p] > 0)
  {
    if n.disk[p] <= 0 && (p in n.graves ==> n.graves[p] <= 0) {
      assert Misspelled([]);
      var what := Announcement([], if p in n.applied then n.applied[p].content else 0);
      assert Act(n, AddFile(what, FromTicks([]), p)).1.Made?;
    }
  }

  /** A `remove` whose time is misspelled deletes the file all the same, however new it is, and the path
      stays buried at the epoch or where it already was. */
  lemma MisspelledRemoveStillDeletes(n: State, p: Path, text: Bytes)
    requires Misspelled(text)
    ensures var after := Removed(n, p, FromTicks(text));
            && p !in after.disk && (forall t :: t in after.session ==> t.path != p)
            && CopyAt(after, p) == Buried(if p in n.graves && n.graves[p] >= 0 then n.graves[p] else 0)
  {
    RemoveAlwaysDeletes(n, p, FromTicks(text));
  }
}
