/** The changes a listing shows that are worth announcing, and what they do to the tombstones. */
module LocalChanges {
  import opened Paths
  import opened Decimal
  import opened Wire
  import opened Reconcile
  import opened Files
  import Maps

  /** A file still carrying the write libtorrent gave it. */
  predicate IsEcho(p: Path, written: TimeMap, current: TimeMap) {
    p in written && p in current && written[p] == current[p]
  }

  function WithoutEchoes(entries: TimeMap, written: TimeMap, current: TimeMap): (kept: TimeMap) {
    map p | p in entries && !IsEcho(p, written, current) :: entries[p]
  }

  predicate Cancels(p: Path, graves: TimeMap, current: TimeMap) {
    p in graves && p in current && !Beats(graves[p], current[p])
  }

  predicate Loses(p: Path, graves: TimeMap, current: TimeMap) {
    p in graves && !Cancels(p, graves, current)
  }

  /** The entries that do not lose to a tombstone, and the tombstones those entries leave standing. */
  function Surviving(entries: TimeMap, graves: TimeMap, current: TimeMap): (kept: TimeMap) {
    map p | p in entries && !Loses(p, graves, current) :: entries[p]
  }

  function Standing(graves: TimeMap, entries: TimeMap, current: TimeMap): (kept: TimeMap) {
    map p | p in graves && !(p in entries && Cancels(p, graves, current)) :: graves[p]
  }

  function Unknown(removed: TimeMap, graves: TimeMap): (kept: TimeMap) {
    map p | p in removed && p !in graves :: removed[p]
  }

  function Noticed(graves: TimeMap, removed: TimeMap, at: Ticks): (marked: TimeMap) {
    graves + map p | p in removed :: at
  }

  /** `local_changes`: what is announced and the tombstones afterwards. */
  ghost function Announced(former: TimeMap, current: TimeMap, written: TimeMap, graves: TimeMap, at: Ticks): (found: (Diff, TimeMap)) {
    var diff := Changes(former, current);
    var created, modified := WithoutEchoes(diff.created, written, current),
                             WithoutEchoes(diff.modified, written, current);
    var afterCreated := Standing(graves, created, current);
    var afterModified := Standing(afterCreated, modified, current);
    var removed := Unknown(diff.removed, afterModified);
    (Diff(removed, Surviving(created, graves, current), Surviving(modified, afterCreated, current)),
     Noticed(afterModified, removed, at))
  }

  // ---- Finding them ----

  ghost function SurvivingSoFar(entries: TimeMap, graves: TimeMap, current: TimeMap, rest: set<Path>): (kept: TimeMap) {
    map p | p in entries && (p in rest || !Loses(p, graves, current)) :: entries[p]
  }

  ghost function StandingSoFar(graves: TimeMap, entries: TimeMap, current: TimeMap, rest: set<Path>): (kept: TimeMap) {
    map p | p in graves && !(p in entries && p !in rest && Cancels(p, graves, current)) :: graves[p]
  }

  lemma JudgeNext(entries: TimeMap, graves: TimeMap, current: TimeMap, rest: set<Path>, p: Path)
    requires p in rest && p in entries
    ensures var kept, standing := SurvivingSoFar(entries, graves, current, rest),
                                  StandingSoFar(graves, entries, current, rest);
            && (p in standing <==> p in graves) && (p in graves ==> standing[p] == graves[p])
            && SurvivingSoFar(entries, graves, current, rest - {p}) ==
               (if Loses(p, graves, current) then kept - {p} else kept)
            && StandingSoFar(graves, entries, current, rest - {p}) ==
               (if Cancels(p, graves, current) then standing - {p} else standing)
  {
  }

  lemma JudgeEnds(entries: TimeMap, graves: TimeMap, current: TimeMap)
    ensures SurvivingSoFar(entries, graves, current, entries.Keys) == entries
    ensures StandingSoFar(graves, entries, current, entries.Keys) == graves
    ensures SurvivingSoFar(entries, graves, current, {}) == Surviving(entries, graves, current)
    ensures StandingSoFar(graves, entries, current, {}) == Standing(graves, entries, current)
  {
  }

  /** Asking an entry whether it loses to a tombstone takes the tombstone away if it does not. */
  method DropLosers(entries: TimeMap, graves: TimeMap, current: TimeMap) returns (kept: TimeMap, standing: TimeMap)
    ensures kept == Surviving(entries, graves, current)
    ensures standing == Standing(graves, entries, current)
  {
    hide SurvivingSoFar, StandingSoFar, Surviving, Standing;
    kept, standing := entries, graves;
    var rest := entries.Keys;
    JudgeEnds(entries, graves, current);
    while rest != {}
      invariant rest <= entries.Keys
      invariant kept == SurvivingSoFar(entries, graves, current, rest)
      invariant standing == StandingSoFar(graves, entries, current, rest)
    {
      var p :| p in rest;
      JudgeNext(entries, graves, current, rest, p);
      rest := rest - {p};
      if p !in standing {
        continue;
      }
      if p in current && !Beats(standing[p], current[p]) {
        standing := standing - {p};
        continue;
      }
      kept := kept - {p};
    }
  }

  ghost function NoticedSoFar(graves: TimeMap, removed: TimeMap, at: Ticks, rest: set<Path>): (marked: TimeMap) {
    graves + map p | p in removed && p !in rest :: at
  }

  lemma NoticeNext(graves: TimeMap, removed: TimeMap, at: Ticks, rest: set<Path>, p: Path)
    requires p in rest && p in removed && p !in graves
    ensures NoticedSoFar(graves, removed, at, rest - {p}) ==
            Marked(NoticedSoFar(graves, removed, at, rest), p, at)
  {
    assert p !in NoticedSoFar(graves, removed, at, rest);
    assert NoticedSoFar(graves, removed, at, rest - {p}) == NoticedSoFar(graves, removed, at, rest)[p := at];
  }

  lemma NoticeEnds(graves: TimeMap, removed: TimeMap, at: Ticks)
    ensures NoticedSoFar(graves, removed, at, removed.Keys) == graves
    ensures NoticedSoFar(graves, removed, at, {}) == Noticed(graves, removed, at)
  {
  }

  method MarkAll(graves: TimeMap, removed: TimeMap, at: Ticks) returns (marked: TimeMap)
    requires removed.Keys !! graves.Keys
    ensures marked == Noticed(graves, removed, at)
  {
    hide Marked, NoticedSoFar, Noticed;
    marked := graves;
    var rest := removed.Keys;
    NoticeEnds(graves, removed, at);
    while rest != {}
      invariant rest <= removed.Keys && marked == NoticedSoFar(graves, removed, at, rest)
    {
      var p :| p in rest;
      NoticeNext(graves, removed, at, rest, p);
      marked := Marked(marked, p, at);
      rest := rest - {p};
    }
  }

  method EraseEchoes(entries: TimeMap, written: TimeMap, current: TimeMap) returns (kept: TimeMap)
    ensures kept == WithoutEchoes(entries, written, current)
  {
    kept := Maps.EraseIf(entries, (p, _) =>
      p in written && p in current && written[p] == current[p]);
  }

  method EraseKnown(removed: TimeMap, graves: TimeMap) returns (kept: TimeMap)
    ensures kept == Unknown(removed, graves)
  {
    kept := Maps.EraseIf(removed, (p, _) => p in graves);
  }

  lemma UnknownAreNew(removed: TimeMap, graves: TimeMap)
    ensures Unknown(removed, graves).Keys !! graves.Keys
  {
  }

  method FindChanges(former: TimeMap, current: TimeMap, written: TimeMap, graves: TimeMap, at: Ticks)
    returns (diff: Diff, tombstones: TimeMap)
    ensures (diff, tombstones) == Announced(former, current, written, graves, at)
  {
    hide Changes, Surviving, Standing, Noticed, WithoutEchoes, Unknown;
    diff := CreateDiff(former, current);
    var created := EraseEchoes(diff.created, written, current);
    var modified := EraseEchoes(diff.modified, written, current);
    created, tombstones := DropLosers(created, graves, current);
    modified, tombstones := DropLosers(modified, tombstones, current);
    var removed := EraseKnown(diff.removed, tombstones);
    UnknownAreNew(diff.removed, tombstones);
    tombstones := MarkAll(tombstones, removed, at);
    diff := Diff(removed, created, modified);
  }

  /** A path is announced created or modified exactly if it is new or retimed, is not the echo of a
      transfer and does not lose to a tombstone; it is announced removed exactly if it is gone and no
      tombstone remembers it. */
  lemma AnnouncedExactly(former: TimeMap, current: TimeMap, written: TimeMap, graves: TimeMap, at: Ticks, p: Path)
    ensures var (diff, after) := Announced(former, current, written, graves, at);
            var news := p in current && !(p in written && written[p] == current[p])
                        && (p in graves ==> graves[p] <= current[p]);
            && (p in diff.created <==> p !in former && news)
            && (p in diff.modified <==> p in former && p in current && former[p] != current[p] && news)
            && (p in diff.removed <==> p in former && p !in current && p !in graves)
  {
  }

  /** The tombstones afterwards are those before, without the ones a published create or edit
      outlived, and with the published deletions at the moment they were noticed. */
  lemma TombstonesExactly(former: TimeMap, current: TimeMap, written: TimeMap, graves: TimeMap, at: Ticks, p: Path)
    ensures var (diff, after) := Announced(former, current, written, graves, at);
            && (p in after <==> p in diff.removed
                                || (p in graves && p !in diff.created && p !in diff.modified))
            && (p in after ==> after[p] == if p in diff.removed then at else graves[p])
  {
  }

  // ---- send ----

  datatype Publication = Remove(path: Path) | Create(path: Path, origin: Ticks)

  function RemovesFor(removed: TimeMap): (out: seq<Publication>) {
    var ks := Sorted(removed.Keys);
    seq(|ks|, i requires 0 <= i < |ks| => Remove(ks[i]))
  }

  /** Each entry with the time the listing has now, not the one it had before. */
  function CreatesFor(entries: TimeMap, current: TimeMap): (out: seq<Publication>) {
    var es := Listing(entries);
    seq(|es|, i requires 0 <= i < |es| =>
      Create(es[i].path, if es[i].path in current then current[es[i].path] else es[i].at))
  }

  function Outbound(diff: Diff, current: TimeMap): (out: seq<Publication>) {
    RemovesFor(diff.removed) + CreatesFor(diff.created, current) + CreatesFor(diff.modified, current)
  }

  lemma InRemoves(m: TimeMap, x: Publication)
    ensures x in RemovesFor(m) <==> x.Remove? && x.path in m
  {
    if x.Remove? && x.path in m {
      var ks := Sorted(m.Keys);
      assert x.path in ks;
      var i :| 0 <= i < |ks| && ks[i] == x.path;
      assert RemovesFor(m)[i] == x;
    }
  }

  lemma InCreates(m: TimeMap, current: TimeMap, x: Publication)
    requires m.Keys <= current.Keys
    ensures x in CreatesFor(m, current) <==> x.Create? && x.path in m && x.origin == current[x.path]
  {
    if x.Create? && x.path in m && x.origin == current[x.path] {
      var i := ListingCovers(m, x.path);
      assert CreatesFor(m, current)[i] == x;
    }
  }

  method Send(diff: Diff, current: TimeMap) returns (out: seq<Publication>)
    ensures out == Outbound(diff, current)
  {
    hide RemovesFor, CreatesFor;
    var removed := AnnounceGone(diff.removed);
    var created := Announce(diff.created, current);
    var modified := Announce(diff.modified, current);
    out := removed + created + modified;
  }

  method AnnounceGone(removed: TimeMap) returns (out: seq<Publication>)
    ensures out == RemovesFor(removed)
  {
    hide Sorted;
    out := [];
    var ks := Sorted(removed.Keys);
    for i := 0 to |ks|
      invariant out == RemovesFor(removed)[..i]
    {
      out := out + [Remove(ks[i])];
    }
  }

  lemma CreatesAt(entries: TimeMap, current: TimeMap, i: nat)
    ensures var es, out := Listing(entries), CreatesFor(entries, current);
            && |out| == |es|
            && (i < |es| ==> out[i] == Create(es[i].path,
                                              if es[i].path in current then current[es[i].path] else es[i].at))
  {
    hide Sorted;
  }

  method Announce(entries: TimeMap, current: TimeMap) returns (out: seq<Publication>)
    ensures out == CreatesFor(entries, current)
  {
    hide Listing, CreatesFor;
    out := [];
    var es := Listing(entries);
    CreatesAt(entries, current, 0);
    for i := 0 to |es|
      invariant |CreatesFor(entries, current)| == |es| && out == CreatesFor(entries, current)[..i]
    {
      CreatesAt(entries, current, i);
      var at := es[i].at;
      if es[i].path in current {
        at := current[es[i].path];
      }
      out := out + [Create(es[i].path, at)];
    }
  }

  /** What is announced is exactly the changes, and a create always with the time the file has now: an
      edit announced with the time it had before would never travel. */
  lemma SentExactly(former: TimeMap, current: TimeMap, written: TimeMap, graves: TimeMap, at: Ticks, x: Publication)
    ensures var diff := Announced(former, current, written, graves, at).0;
            x in Outbound(diff, current) <==>
            match x
            case Remove(p) => p in diff.removed
            case Create(p, origin) => p in diff.created.Keys + diff.modified.Keys && origin == current[p]
  {
    var diff := Announced(former, current, written, graves, at).0;
    InRemoves(diff.removed, x);
    InCreates(diff.created, current, x);
    InCreates(diff.modified, current, x);
  }

  lemma CreatesAscend(m: TimeMap, current: TimeMap, i: nat, j: nat)
    requires i < j < |CreatesFor(m, current)|
    ensures Less(CreatesFor(m, current)[i].path, CreatesFor(m, current)[j].path)
  {
    hide Sorted;
    assert Less(Sorted(m.Keys)[i], Sorted(m.Keys)[j]);
  }

  lemma RemovesAscend(m: TimeMap, i: nat, j: nat)
    requires i < j < |RemovesFor(m)|
    ensures Less(RemovesFor(m)[i].path, RemovesFor(m)[j].path)
  {
    hide Sorted;
  }

  /** When in a round of announcements: deletions first, then new files, then edits. */
  function Stage(x: Publication, diff: Diff): (stage: nat) {
    if x.Remove? then 0 else if x.path in diff.created then 1 else 2
  }

  /** Deletions, new files and edits go out one after the other, each in path order, so nothing goes out
      twice. */
  lemma SentInOrder(former: TimeMap, current: TimeMap, written: TimeMap, graves: TimeMap, at: Ticks, i: nat, j: nat)
    requires var sent := Outbound(Announced(former, current, written, graves, at).0, current); i < j < |sent|
    ensures var diff := Announced(former, current, written, graves, at).0;
            var x, y := Outbound(diff, current)[i], Outbound(diff, current)[j];
            && x != y
            && (Stage(x, diff) < Stage(y, diff) || (Stage(x, diff) == Stage(y, diff) && Less(x.path, y.path)))
  {
    var diff := Announced(former, current, written, graves, at).0;
    assert diff.created.Keys !! diff.modified.Keys && diff.created.Keys + diff.modified.Keys <= current.Keys;
    hide Announced, RemovesFor, CreatesFor;
    SentApart(diff, current, i, j);
    LessIrreflexive(Outbound(diff, current)[i].path);
  }

  lemma StageOf(diff: Diff, current: TimeMap, i: nat)
    requires diff.created.Keys !! diff.modified.Keys && diff.created.Keys + diff.modified.Keys <= current.Keys
    requires i < |Outbound(diff, current)|
    ensures var a := |RemovesFor(diff.removed)|;
            var b := a + |CreatesFor(diff.created, current)|;
            Stage(Outbound(diff, current)[i], diff) == if i < a then 0 else if i < b then 1 else 2
  {
    hide RemovesFor, CreatesFor;
    var x := Outbound(diff, current)[i];
    var a := |RemovesFor(diff.removed)|;
    var b := a + |CreatesFor(diff.created, current)|;
    if i < a {
      assert x == RemovesFor(diff.removed)[i];
      InRemoves(diff.removed, x);
    } else if i < b {
      assert x == CreatesFor(diff.created, current)[i - a];
      InCreates(diff.created, current, x);
    } else {
      assert x == CreatesFor(diff.modified, current)[i - b];
      InCreates(diff.modified, current, x);
    }
  }

  lemma SentApart(diff: Diff, current: TimeMap, i: nat, j: nat)
    requires diff.created.Keys !! diff.modified.Keys && diff.created.Keys + diff.modified.Keys <= current.Keys
    requires i < j < |Outbound(diff, current)|
    ensures var x, y := Outbound(diff, current)[i], Outbound(diff, current)[j];
            Stage(x, diff) < Stage(y, diff) || (Stage(x, diff) == Stage(y, diff) && Less(x.path, y.path))
  {
    hide RemovesFor, CreatesFor, Stage, Less;
    var a := |RemovesFor(diff.removed)|;
    var b := a + |CreatesFor(diff.created, current)|;
    StageOf(diff, current, i);
    StageOf(diff, current, j);
    if j < a {
      RemovesAscend(diff.removed, i, j);
    } else if a <= i && j < b {
      CreatesAscend(diff.created, current, i - a, j - a);
    } else if b <= i {
      CreatesAscend(diff.modified, current, i - b, j - b);
    }
  }
}
