/** The last-write-wins rules: which deletions of a peer are news, which files a peer lacks, and
    whom to ask. */
module Reconcile {
  import opened Paths
  import opened Decimal
  import opened Wire

  /** One hour of nanoseconds. */
  const TTL: int := 3_600_000_000_000

  /** A deletion beats a file only if it is strictly newer. */
  predicate Beats(deleted: Ticks, written: Ticks) {
    deleted > written
  }

  /** `mark`: the later of two deletions of one path stands. */
  function Marked(graves: TimeMap, path: Path, deleted: Ticks): (marked: TimeMap) {
    if path in graves && graves[path] >= deleted then graves else graves[path := deleted]
  }

  predicate Expired(at: Ticks, now: int) {
    now - at > TTL
  }

  /** `expire`. */
  function Unexpired(graves: TimeMap, now: int): (kept: TimeMap) {
    map p | p in graves && !Expired(graves[p], now) :: graves[p]
  }

  /** Whether a deletion in a peer's digest is worth taking on here. */
  predicate IsNews(p: Path, at: Ticks, held: TimeMap, mine: TimeMap, now: int) {
    && (p in mine ==> mine[p] < at)
    && !Expired(at, now)
    && (p in held ==> Beats(at, held[p]))
  }

  function Adoptable(theirs: TimeMap, held: TimeMap, mine: TimeMap, now: int): (news: TimeMap) {
    map p | p in theirs && IsNews(p, theirs[p], held, mine, now) :: theirs[p]
  }

  lemma AdoptableStep(theirs: TimeMap, s: set<Path>, p: Path, held: TimeMap, mine: TimeMap, now: int)
    requires p in theirs
    ensures Adoptable(Slice(theirs, s + {p}), held, mine, now) ==
            if IsNews(p, theirs[p], held, mine, now)
            then Adoptable(Slice(theirs, s), held, mine, now)[p := theirs[p]]
            else Adoptable(Slice(theirs, s), held, mine, now)
  {
  }

  /** What is adoptable among the first `i` of the peer's deletions. */
  ghost function AdoptedSoFar(i: nat, theirs: TimeMap, held: TimeMap, mine: TimeMap, now: int): (news: TimeMap)
    requires i <= |theirs|
  {
    Adoptable(Slice(theirs, Visited(Sorted(theirs.Keys), i)), held, mine, now)
  }

  lemma AdoptTurn(i: nat, theirs: TimeMap, held: TimeMap, mine: TimeMap, now: int)
    requires i < |theirs|
    ensures var path := Sorted(theirs.Keys)[i];
            path in theirs && AdoptedSoFar(i + 1, theirs, held, mine, now) ==
            if IsNews(path, theirs[path], held, mine, now)
            then AdoptedSoFar(i, theirs, held, mine, now)[path := theirs[path]]
            else AdoptedSoFar(i, theirs, held, mine, now)
  {
    var ks := Sorted(theirs.Keys);
    assert ks[i] in theirs;
    VisitNext(ks, i);
    AdoptableStep(theirs, Visited(ks, i), ks[i], held, mine, now);
  }

  lemma AdoptEnds(theirs: TimeMap, held: TimeMap, mine: TimeMap, now: int)
    ensures AdoptedSoFar(0, theirs, held, mine, now) == map[]
    ensures AdoptedSoFar(|theirs|, theirs, held, mine, now) == Adoptable(theirs, held, mine, now)
  {
    WholeSlice(theirs);
    assert Adoptable(map[], held, mine, now) == map[];
  }

  method FindAdoptable(theirs: TimeMap, held: TimeMap, mine: TimeMap, now: int)
    returns (adopt: TimeMap)
    ensures adopt == Adoptable(theirs, held, mine, now)
  {
    hide AdoptedSoFar, Adoptable, Sorted;
    adopt := map[];
    var ks := Sorted(theirs.Keys);
    AdoptEnds(theirs, held, mine, now);
    for i := 0 to |ks|
      invariant adopt == AdoptedSoFar(i, theirs, held, mine, now)
    {
      var path := ks[i];
      AdoptTurn(i, theirs, held, mine, now);
      var at := theirs[path];
      if path in mine && mine[path] >= at {
        continue;
      }
      if now - at > TTL {
        continue;
      }
      if path in held && !Beats(at, held[path]) {
        continue;
      }
      adopt := adopt[path := at];
    }
  }

  /** Whether this node has to repair `p` for a peer holding `theirs`. */
  predicate IsGap(p: Path, mine: TimeMap, graves: TimeMap, theirs: TimeMap)
    requires p in mine
  {
    && !(p in graves && Beats(graves[p], mine[p]))
    && (p in theirs ==> theirs[p] < mine[p])
  }

  ghost function GapSet(s: set<Path>, mine: TimeMap, graves: TimeMap, theirs: TimeMap): (gaps: set<Path>) {
    set p | p in s && p in mine && IsGap(p, mine, graves, theirs)
  }

  function Gaps(mine: TimeMap, graves: TimeMap, theirs: TimeMap): (gaps: seq<Path>) {
    Sorted(set p | p in mine && IsGap(p, mine, graves, theirs))
  }

  lemma GapStep(s: set<Path>, p: Path, mine: TimeMap, graves: TimeMap, theirs: TimeMap)
    requires p in mine && forall q :: q in s ==> Less(q, p)
    ensures var found := Sorted(GapSet(s, mine, graves, theirs));
            Sorted(GapSet(s + {p}, mine, graves, theirs)) ==
            if IsGap(p, mine, graves, theirs) then found + [p] else found
  {
    var before, after := GapSet(s, mine, graves, theirs), GapSet(s + {p}, mine, graves, theirs);
    if IsGap(p, mine, graves, theirs) {
      assert after == before + {p};
      SortedExtend(before, p);
    } else {
      assert after == before;
    }
  }

  /** The gaps among the first `i` paths. */
  ghost function GapsSoFar(i: nat, mine: TimeMap, graves: TimeMap, theirs: TimeMap): (gaps: seq<Path>)
    requires i <= |mine|
  {
    Sorted(GapSet(Visited(Sorted(mine.Keys), i), mine, graves, theirs))
  }

  lemma GapTurn(i: nat, mine: TimeMap, graves: TimeMap, theirs: TimeMap)
    requires i < |mine|
    ensures var path := Sorted(mine.Keys)[i];
            path in mine && GapsSoFar(i + 1, mine, graves, theirs) ==
            if IsGap(path, mine, graves, theirs) then GapsSoFar(i, mine, graves, theirs) + [path]
            else GapsSoFar(i, mine, graves, theirs)
  {
    var ks := Sorted(mine.Keys);
    assert ks[i] in mine;
    VisitNext(ks, i);
    VisitInOrder(ks, i);
    GapStep(Visited(ks, i), ks[i], mine, graves, theirs);
  }

  lemma GapEnds(mine: TimeMap, graves: TimeMap, theirs: TimeMap)
    ensures GapsSoFar(0, mine, graves, theirs) == []
    ensures GapsSoFar(|mine|, mine, graves, theirs) == Gaps(mine, graves, theirs)
  {
    VisitedAll(mine.Keys);
    assert GapSet(mine.Keys, mine, graves, theirs) ==
           set p | p in mine && IsGap(p, mine, graves, theirs);
    assert GapSet(Visited(Sorted(mine.Keys), 0), mine, graves, theirs) == {};
  }

  method FindGaps(mine: TimeMap, graves: TimeMap, theirs: TimeMap) returns (found: seq<Path>)
    ensures found == Gaps(mine, graves, theirs)
  {
    hide GapsSoFar, Gaps, Sorted;
    found := [];
    var ks := Sorted(mine.Keys);
    GapEnds(mine, graves, theirs);
    for i := 0 to |ks|
      invariant found == GapsSoFar(i, mine, graves, theirs)
    {
      var path := ks[i];
      GapTurn(i, mine, graves, theirs);
      if path in graves && Beats(graves[path], mine[path]) {
        continue;
      }
      if path !in theirs || theirs[path] < mine[path] {
        found := found + [path];
      }
    }
  }

  // ---- Whom to ask ----

  /** What a peer last said its tree hashes to, and when on the steady clock. */
  datatype Heard = Heard(root: Bytes, at: int)

  /** Three state ceilings of nanoseconds. */
  const PEER_SILENCE: int := 180_000_000_000

  function Speaking(peers: map<Bytes, Heard>, now: int): (speaking: map<Bytes, Heard>) {
    map e | e in peers && now - peers[e].at <= PEER_SILENCE :: peers[e]
  }

  datatype Option<T> = None | Some(value: T)

  /** The draw of one peer among those whose last root hash differs; which of them is drawn is
      left open. */
  method Pick(peers: map<Bytes, Heard>, mine: Bytes) returns (asked: Option<Bytes>)
    ensures asked.Some? ==> asked.value in peers && peers[asked.value].root != mine
    ensures asked.None? <==> forall e :: e in peers ==> peers[e].root == mine
  {
    var candidates := {};
    var rest := peers.Keys;
    while rest != {}
      invariant rest <= peers.Keys
      invariant forall e :: e in candidates <==> e in peers && e !in rest && peers[e].root != mine
    {
      var e :| e in rest;
      if peers[e].root != mine {
        candidates := candidates + {e};
      }
      rest := rest - {e};
    }
    if candidates == {} {
      assert forall e :: e in peers && peers[e].root != mine ==> e in candidates;
      return None;
    }
    var drawn :| drawn in candidates;
    return Some(drawn);
  }

  // ---- The rules, path by path ----

  /** A tombstone stands for an hour and not a tick longer, unchanged. */
  lemma ExpiresExactly(graves: TimeMap, now: int, p: Path)
    ensures var after := Unexpired(graves, now);
            && (p in after <==> p in graves && now - graves[p] <= 3_600_000_000_000)
            && (p in after ==> after[p] == graves[p])
  {
  }

  /** The later of two deletions stands, and no other path is touched. */
  lemma MarkedExactly(graves: TimeMap, p: Path, deleted: Ticks, q: Path)
    ensures var after := Marked(graves, p, deleted);
            && (q in after <==> q in graves || q == p)
            && (q in after && q != p ==> after[q] == graves[q])
            && after[p] == (if p in graves && graves[p] > deleted then graves[p] else deleted)
  {
  }

  /** A deletion is news if it is later than the one remembered, no more than an hour old and strictly
      later than the file held; it is taken on at its own moment. */
  lemma AdoptableExactly(theirs: TimeMap, held: TimeMap, mine: TimeMap, now: int, p: Path)
    ensures var news := Adoptable(theirs, held, mine, now);
            && (p in news <==> p in theirs && (p in mine ==> mine[p] < theirs[p])
                               && now - theirs[p] <= 3_600_000_000_000
                               && (p in held ==> held[p] < theirs[p]))
            && (p in news ==> news[p] == theirs[p])
  {
  }

  /** A file is to be repaired if no strictly later deletion is remembered here and the peer lacks it or
      has it strictly older; gaps come in path order, each once. */
  lemma GapsExactly(mine: TimeMap, graves: TimeMap, theirs: TimeMap, p: Path)
    ensures Ascending(Gaps(mine, graves, theirs))
    ensures p in Gaps(mine, graves, theirs) <==>
            p in mine && !(p in graves && graves[p] > mine[p]) && (p in theirs ==> theirs[p] < mine[p])
  {
  }

  /** A peer is remembered as it was for three minutes and not a nanosecond longer. */
  lemma SpeakingExactly(peers: map<Bytes, Heard>, now: int, e: Bytes)
    ensures var after := Speaking(peers, now);
            && (e in after <==> e in peers && now - peers[e].at <= 180_000_000_000)
            && (e in after ==> after[e] == peers[e])
  {
  }
}
