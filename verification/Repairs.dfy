/** What becomes of the repairs whose wait is over. */
module Repairs {
  import opened Paths
  import opened Ladder

  datatype Answer = Cached(path: Path) | Rebuilt(path: Path)

  /** One call: what was published, whether something was rebuilt off disk, what has to go on
      waiting. */
  datatype Round = Round(sent: seq<Answer>, rebuilt: bool, waiting: seq<Path>)

  const FRESH: Round := Round([], false, [])

  function Considered(p: Path, listed: set<Path>, cached: set<Path>, r: Round): (next: Round) {
    if p !in listed then r
    else if p in cached then r.(sent := r.sent + [Cached(p)])
    else if r.rebuilt then r.(waiting := r.waiting + [p])
    else r.(sent := r.sent + [Rebuilt(p)], rebuilt := true)
  }

  function Rounded(ready: seq<Path>, listed: set<Path>, cached: set<Path>, r: Round): (done: Round)
    decreases |ready|
  {
    if |ready| == 0 then r else Rounded(ready[1..], listed, cached, Considered(ready[0], listed, cached, r))
  }

  /** The repairs still waiting after a call. */
  function Published(pending: Moments, listed: set<Path>, cached: set<Path>, now: int): (after: Moments) {
    Arm(Waiting(pending, now), Rounded(Ready(pending, now), listed, cached, FRESH).waiting, now)
  }

  /** The paths that are listed but have no announcement in hand, in the order given. */
  function Misses(ready: seq<Path>, listed: set<Path>, cached: set<Path>): (ms: seq<Path>)
    ensures forall p :: p in ms <==> p in ready && p in listed && p !in cached
    decreases |ready|
  {
    if |ready| == 0 then [] else
      var rest := Misses(ready[1..], listed, cached);
      assert ready == [ready[0]] + ready[1..];
      if ready[0] in listed && ready[0] !in cached then [ready[0]] + rest else rest
  }

  lemma {:induction false} RoundOutcome(ready: seq<Path>, listed: set<Path>, cached: set<Path>, r: Round)
    ensures var ms, out := Misses(ready, listed, cached), Rounded(ready, listed, cached, r);
            && out.rebuilt == (r.rebuilt || ms != [])
            && out.waiting == r.waiting + (if r.rebuilt || ms == [] then ms else ms[1..])
            && (forall p :: Cached(p) in out.sent <==>
                  Cached(p) in r.sent || (p in ready && p in listed && p in cached))
            && (forall p :: Rebuilt(p) in out.sent <==>
                  Rebuilt(p) in r.sent || (!r.rebuilt && ms != [] && p == ms[0]))
    decreases |ready|
  {
    if |ready| > 0 {
      assert ready == [ready[0]] + ready[1..];
      RoundOutcome(ready[1..], listed, cached, Considered(ready[0], listed, cached, r));
    }
  }

  lemma {:induction false} MissesAscending(ready: seq<Path>, listed: set<Path>, cached: set<Path>)
    requires Ascending(ready)
    ensures Ascending(Misses(ready, listed, cached))
    decreases |ready|
  {
    if |ready| > 0 {
      var rest := Misses(ready[1..], listed, cached);
      MissesAscending(ready[1..], listed, cached);
      forall p | p in rest
        ensures Less(ready[0], p)
      {
        var i :| 0 <= i < |ready[1..]| && ready[1..][i] == p;
        assert ready[i + 1] == p;
      }
    }
  }

  /** Which of the paths without an announcement goes first: the one the rebuild is spent on. */
  lemma FirstMiss(ready: seq<Path>, listed: set<Path>, cached: set<Path>)
    requires Ascending(ready) && Misses(ready, listed, cached) != []
    ensures var ms := Misses(ready, listed, cached);
            && ms[0] in ms && ms[0] !in ms[1..]
            && forall p :: p in ms <==> p == ms[0] || p in ms[1..]
  {
    var ms := Misses(ready, listed, cached);
    MissesAscending(ready, listed, cached);
    LessIrreflexive(ms[0]);
    assert ms == [ms[0]] + ms[1..];
  }

  /** What one call does with the paths that are due, told apart by who has an announcement. */
  lemma RoundSplits(pending: Moments, listed: set<Path>, cached: set<Path>, now: int) returns (out: Round)
    ensures out == Rounded(Ready(pending, now), listed, cached, FRESH)
    ensures forall p :: Cached(p) in out.sent <==>
      p in pending && pending[p] <= now && p in listed && p in cached
    ensures forall p :: Rebuilt(p) in out.sent || p in out.waiting <==>
      p in pending && pending[p] <= now && p in listed && p !in cached
    ensures forall p :: !(Rebuilt(p) in out.sent && p in out.waiting)
    ensures forall p, q :: Rebuilt(p) in out.sent && Rebuilt(q) in out.sent ==> p == q
    ensures out.rebuilt <==> exists p :: Rebuilt(p) in out.sent
    ensures out.waiting != [] ==> out.rebuilt
  {
    var ready := Ready(pending, now);
    var ms := Misses(ready, listed, cached);
    out := Rounded(ready, listed, cached, FRESH);
    RoundOutcome(ready, listed, cached, FRESH);
    if ms != [] {
      FirstMiss(ready, listed, cached);
      assert Rebuilt(ms[0]) in out.sent;
    }
  }

  lemma StillSpaced(pending: Moments, now: int)
    ensures Spaced(pending) ==> Spaced(Waiting(pending, now))
  {
  }

  /** No gap is lost: a due path is exactly one of gone from the listing, repaired from the cache,
      rebuilt or pending again; what is not due waits on unmoved; and nothing else is pending. One
      path is rebuilt if any due one is listed and missing from the cache, and never two. */
  lemma NoGapIsLost(pending: Moments, listed: set<Path>, cached: set<Path>, now: int)
    returns (sent: seq<Answer>, after: Moments)
    ensures sent == Rounded(Ready(pending, now), listed, cached, FRESH).sent
    ensures after == Published(pending, listed, cached, now)
    ensures Spaced(pending) ==> Spaced(after)
    ensures after.Keys <= pending.Keys
    ensures forall p :: p in pending && pending[p] > now ==> p in after && after[p] == pending[p]
    ensures forall p :: Cached(p) in sent || Rebuilt(p) in sent ==> p in pending && pending[p] <= now
    ensures forall p :: p in pending && pending[p] <= now ==>
      && (Cached(p) in sent <==> p in listed && p in cached)
      && (Rebuilt(p) in sent || p in after <==> p in listed && p !in cached)
      && !(Rebuilt(p) in sent && p in after)
    ensures forall p, q :: Rebuilt(p) in sent && Rebuilt(q) in sent ==> p == q
    ensures (exists p :: Rebuilt(p) in sent) <==>
      exists p :: p in pending && pending[p] <= now && p in listed && p !in cached
  {
    hide Spaced, Arm, Rounded, Ready;
    var out := RoundSplits(pending, listed, cached, now);
    sent, after := out.sent, Published(pending, listed, cached, now);
    StillSpaced(pending, now);
    ArmKeeps(Waiting(pending, now), out.waiting, now);
    if p :| p in pending && pending[p] <= now && p in listed && p !in cached {
      assert Rebuilt(p) in out.sent || p in out.waiting;
    }
  }

  // ---- In which order ----

  ghost predicate InOrder(sent: seq<Answer>) {
    forall i, j :: 0 <= i < j < |sent| ==> Less(sent[i].path, sent[j].path)
  }

  ghost predicate AllBefore(sent: seq<Answer>, ready: seq<Path>) {
    forall i, j :: 0 <= i < |sent| && 0 <= j < |ready| ==> Less(sent[i].path, ready[j])
  }

  lemma ConsiderKeepsOrder(ready: seq<Path>, listed: set<Path>, cached: set<Path>, r: Round)
    requires |ready| > 0 && Ascending(ready) && InOrder(r.sent) && AllBefore(r.sent, ready)
    ensures var next := Considered(ready[0], listed, cached, r);
            InOrder(next.sent) && AllBefore(next.sent, ready[1..])
  {
    var next, rest := Considered(ready[0], listed, cached, r), ready[1..];
    forall i, j | 0 <= i < |next.sent| && 0 <= j < |rest|
      ensures Less(next.sent[i].path, rest[j])
    {
      assert rest[j] == ready[j + 1];
      if i == |r.sent| {
        assert next.sent[i].path == ready[0];
      }
    }
  }

  lemma {:induction false} RoundInOrder(ready: seq<Path>, listed: set<Path>, cached: set<Path>, r: Round)
    requires Ascending(ready) && InOrder(r.sent) && AllBefore(r.sent, ready)
    ensures InOrder(Rounded(ready, listed, cached, r).sent)
    decreases |ready|
  {
    hide InOrder, AllBefore, Considered;
    if |ready| > 0 {
      ConsiderKeepsOrder(ready, listed, cached, r);
      RoundInOrder(ready[1..], listed, cached, Considered(ready[0], listed, cached, r));
    }
  }

  /** A call sends in path order, nothing twice, and spends its rebuild on the first path in need of
      one. */
  lemma SentInOrder(pending: Moments, listed: set<Path>, cached: set<Path>, now: int)
    ensures var sent := Rounded(Ready(pending, now), listed, cached, FRESH).sent;
            && InOrder(sent)
            && forall p: Path, q ::
                 (Rebuilt(p) in sent && q in pending && pending[q] <= now && q in listed && q !in cached && q != p) ==>
                 Less(p, q)
  {
    var ready := Ready(pending, now);
    var ms := Misses(ready, listed, cached);
    RoundInOrder(ready, listed, cached, FRESH);
    RoundOutcome(ready, listed, cached, FRESH);
    MissesAscending(ready, listed, cached);
    hide Rounded, Misses, Ready;
    forall q | q in ms && q != ms[0]
      ensures Less(ms[0], q)
    {
      var i :| 0 <= i < |ms| && ms[i] == q;
    }
    ReadyAre(pending, now);
  }

  lemma ReadyAre(pending: Moments, now: int)
    ensures forall p :: p in Ready(pending, now) <==> p in pending && pending[p] <= now
  {
  }

  /** What has to wait again takes, in path order, consecutive rungs behind whatever still waits. */
  lemma RearmedExactly(pending: Moments, listed: set<Path>, cached: set<Path>, now: int)
    returns (again: seq<Path>, start: int)
    ensures var after := Published(pending, listed, cached, now);
            && Ascending(again) && IsStart(Waiting(pending, now), now, start)
            && (forall p :: p in after <==> p in Waiting(pending, now) || p in again)
            && Kept(Waiting(pending, now), after) && OnRungs(after, again, start)
  {
    again := WaitAgain(pending, listed, cached, now);
    hide Rounded, Ready, Arm, IsStart, Waiting, NewOnes, OnRungs, Kept;
    start := ArmExactly(Waiting(pending, now), again, now);
    AllAreNew(Waiting(pending, now).Keys, again);
  }

  lemma WaitAgain(pending: Moments, listed: set<Path>, cached: set<Path>, now: int) returns (again: seq<Path>)
    ensures again == Rounded(Ready(pending, now), listed, cached, FRESH).waiting
    ensures Ascending(again) && forall p :: p in again ==> p !in Waiting(pending, now)
  {
    var ready := Ready(pending, now);
    var ms := Misses(ready, listed, cached);
    RoundOutcome(ready, listed, cached, FRESH);
    MissesAscending(ready, listed, cached);
    ReadyAre(pending, now);
    hide Ready, Rounded, Misses;
    again := Rounded(ready, listed, cached, FRESH).waiting;
    assert forall p :: p in again ==> p in ms;
  }

  lemma {:induction false} AllAreNew(known: set<Path>, ks: seq<Path>)
    requires Ascending(ks) && forall p :: p in ks ==> p !in known
    ensures NewOnes(known, ks) == ks
    decreases |ks|
  {
    if |ks| > 0 {
      assert ks == [ks[0]] + ks[1..];
      forall p | p in ks[1..]
        ensures p !in known + {ks[0]}
      {
        var i :| 0 <= i < |ks[1..]| && ks[1..][i] == p;
        assert Less(ks[0], ks[i + 1]);
        LessIrreflexive(p);
      }
      AllAreNew(known + {ks[0]}, ks[1..]);
    }
  }

  // ---- With nothing new to take on, the calls run dry ----

  ghost predicate Late(pending: Moments, now: int) {
    forall p :: p in pending ==> pending[p] <= now
  }

  ghost function MissSet(pending: Moments, listed: set<Path>, cached: set<Path>): (misses: set<Path>) {
    set p | p in pending && p in listed && p !in cached
  }

  lemma LateKeys(pending: Moments, listed: set<Path>, cached: set<Path>, now: int) returns (p: Path)
    requires Late(pending, now)
    ensures var misses := MissSet(pending, listed, cached);
            && (misses != {} ==> p in misses)
            && Published(pending, listed, cached, now).Keys == misses - {p}
  {
    hide Published, Rounded, Spaced, Ready;
    var sent, after := NoGapIsLost(pending, listed, cached, now);
    var misses := MissSet(pending, listed, cached);
    if misses != {} {
      var m :| m in misses;
      p :| Rebuilt(p) in sent;
    } else {
      p := [];
    }
    assert after.Keys == misses - {p};
  }

  /** A call that comes after every moment leaves all misses but one. */
  lemma LateCall(pending: Moments, listed: set<Path>, cached: set<Path>, now: int)
    requires Late(pending, now)
    ensures var after, misses := Published(pending, listed, cached, now),
                                 MissSet(pending, listed, cached);
            && after.Keys <= misses
            && MissSet(after, listed, cached) == after.Keys
            && |after| == if misses == {} then 0 else |misses| - 1
  {
    hide Published, Spaced;
    var p := LateKeys(pending, listed, cached, now);
    var after, misses := Published(pending, listed, cached, now), MissSet(pending, listed, cached);
    assert |after| == |after.Keys|;
    assert after.Keys == misses - {p};
  }

  ghost predicate AllLate(pending: Moments, listed: set<Path>, cached: set<Path>, times: seq<int>)
    decreases |times|
  {
    |times| == 0 ||
    (Late(pending, times[0])
     && AllLate(Published(pending, listed, cached, times[0]), listed, cached, times[1..]))
  }

  ghost function AfterCalls(pending: Moments, listed: set<Path>, cached: set<Path>, times: seq<int>): (after: Moments)
    decreases |times|
  {
    if |times| == 0 then pending
    else AfterCalls(Published(pending, listed, cached, times[0]), listed, cached, times[1..])
  }

  /** Late calls, each made after every moment then pending, leave one path fewer each time once the
      cached ones are out: after `k` of them what is pending is the misses less `k`. So as many calls
      as there are misses empty the map, which is never more than its size, and no fewer do. */
  lemma {:induction false} CallsRunDry(pending: Moments, listed: set<Path>, cached: set<Path>, times: seq<int>)
    requires |times| > 0 && AllLate(pending, listed, cached, times)
    ensures var misses := |MissSet(pending, listed, cached)|;
            && misses <= |pending|
            && |AfterCalls(pending, listed, cached, times)| ==
               if misses <= |times| then 0 else misses - |times|
    decreases |times|
  {
    var after := Published(pending, listed, cached, times[0]);
    LateCall(pending, listed, cached, times[0]);
    Subset(MissSet(pending, listed, cached), pending.Keys);
    if |times| > 1 {
      CallsRunDry(after, listed, cached, times[1..]);
    }
  }

  lemma Subset(a: set<Path>, b: set<Path>)
    requires a <= b
    ensures |a| <= |b|
  {
    assert b == a + (b - a);
  }
}
