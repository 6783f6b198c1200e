/** The repairs a node has taken on and the moment each is due: `arm` and `due`. */
module Ladder {
  import opened Paths

  /** Moments of the steady clock, in nanoseconds. */
  type Moments = map<Path, int>

  /** Twenty milliseconds. */
  const PACE: int := 20_000_000

  function Max(a: int, b: int): (greater: int) {
    if a < b then b else a
  }

  /** The first free rung behind everything waiting under `ks`. */
  function Behind(ks: seq<Path>, pending: Moments, now: int): (rung: int)
    requires forall i :: 0 <= i < |ks| ==> ks[i] in pending
  {
    if ks == [] then now
    else Max(Behind(ks[..|ks| - 1], pending, now), pending[ks[|ks| - 1]] + PACE)
  }

  /** Each missing path not already waiting takes the next rung. */
  function Armed(pending: Moments, missing: seq<Path>, next: int): (armed: Moments)
    decreases |missing|
  {
    if |missing| == 0 then pending
    else if missing[0] in pending then Armed(pending, missing[1..], next)
    else Armed(pending[missing[0] := next], missing[1..], next + PACE)
  }

  function Arm(pending: Moments, missing: seq<Path>, now: int): (armed: Moments) {
    Armed(pending, missing, Behind(Sorted(pending.Keys), pending, now))
  }

  function Ready(pending: Moments, now: int): (ready: seq<Path>) {
    Sorted(set p | p in pending && pending[p] <= now)
  }

  function Waiting(pending: Moments, now: int): (waiting: Moments) {
    map p | p in pending && pending[p] > now :: pending[p]
  }

  ghost function ReadyAmong(s: set<Path>, pending: Moments, now: int): (ready: set<Path>) {
    set p | p in s && p in pending && pending[p] <= now
  }

  lemma ReadyStep(s: set<Path>, p: Path, pending: Moments, now: int)
    requires p in pending && forall q :: q in s ==> Less(q, p)
    ensures var ready := Sorted(ReadyAmong(s, pending, now));
            Sorted(ReadyAmong(s + {p}, pending, now)) == if pending[p] <= now then ready + [p] else ready
  {
    var before, after := ReadyAmong(s, pending, now), ReadyAmong(s + {p}, pending, now);
    if pending[p] <= now {
      assert after == before + {p};
      SortedExtend(before, p);
    } else {
      assert after == before;
    }
  }

  /** What is ready among the first `i` paths waiting. */
  ghost function ReadySoFar(i: nat, pending: Moments, now: int): (ready: seq<Path>)
    requires i <= |pending|
  {
    Sorted(ReadyAmong(Visited(Sorted(pending.Keys), i), pending, now))
  }

  lemma ReadyTurn(i: nat, pending: Moments, now: int)
    requires i < |pending|
    ensures var path := Sorted(pending.Keys)[i];
            path in pending && ReadySoFar(i + 1, pending, now) ==
            if pending[path] <= now then ReadySoFar(i, pending, now) + [path] else ReadySoFar(i, pending, now)
  {
    var ks := Sorted(pending.Keys);
    assert ks[i] in pending.Keys;
    hide ReadyAmong;
    VisitNext(ks, i);
    VisitInOrder(ks, i);
    ReadyStep(Visited(ks, i), ks[i], pending, now);
  }

  lemma NoneAndAll(pending: Moments, now: int)
    ensures ReadyAmong({}, pending, now) == {} && Sorted({}) == []
    ensures Sorted(ReadyAmong(pending.Keys, pending, now)) == Ready(pending, now)
  {
    AscendingUnique(Sorted(ReadyAmong(pending.Keys, pending, now)), Ready(pending, now));
  }

  lemma ReadyEnds(pending: Moments, now: int)
    ensures ReadySoFar(0, pending, now) == []
    ensures ReadySoFar(|pending|, pending, now) == Ready(pending, now)
  {
    hide ReadyAmong, Sorted, Ready;
    VisitedAll(pending.Keys);
    NoneAndAll(pending, now);
    assert Visited(Sorted(pending.Keys), 0) == {};
  }

  lemma TakenAway(pending: Moments, now: int)
    ensures pending - (set p | p in Ready(pending, now)) == Waiting(pending, now)
  {
  }

  /** `due`: hands over what is ready, and no longer has it waiting. */
  method TakeReady(before: Moments, now: int) returns (ready: seq<Path>, pending: Moments)
    ensures ready == Ready(before, now) && pending == Waiting(before, now)
  {
    hide ReadySoFar, Ready, Sorted, Waiting;
    ready, pending := [], before;
    var ks := Sorted(before.Keys);
    ReadyEnds(before, now);
    for i := 0 to |ks|
      invariant ready == ReadySoFar(i, before, now)
    {
      ReadyTurn(i, before, now);
      if before[ks[i]] <= now {
        ready := ready + [ks[i]];
      }
    }
    for i := 0 to |ready|
      invariant pending == before - Visited(ready, i)
    {
      VisitNext(ready, i);
      pending := pending - {ready[i]};
    }
    assert ready[..|ready|] == ready;
    TakenAway(before, now);
  }

  lemma BehindNext(ks: seq<Path>, pending: Moments, now: int, i: nat)
    requires i < |ks| && forall j :: 0 <= j < |ks| ==> ks[j] in pending
    ensures Behind(ks[..i + 1], pending, now) == Max(Behind(ks[..i], pending, now), pending[ks[i]] + PACE)
  {
    assert ks[..i + 1][..i] == ks[..i];
  }

  lemma ArmedNext(pending: Moments, missing: seq<Path>, next: int, i: nat)
    requires i < |missing|
    ensures Armed(pending, missing[i..], next) ==
            if missing[i] in pending then Armed(pending, missing[i + 1..], next)
            else Armed(pending[missing[i] := next], missing[i + 1..], next + PACE)
  {
    assert missing[i..][1..] == missing[i + 1..];
  }

  /** `arm`: every missing path not waiting yet queues behind whatever is. */
  method ArmBehind(before: Moments, missing: seq<Path>, now: int) returns (pending: Moments)
    ensures pending == Arm(before, missing, now)
  {
    hide Behind, Armed, Sorted;
    pending := before;
    var next := now;
    var ks := Sorted(before.Keys);
    assert forall i :: 0 <= i < |ks| ==> ks[i] in before.Keys;
    assert Behind(ks[..0], before, now) == now by { NothingAhead(ks, before, now); }
    for i := 0 to |ks|
      invariant next == Behind(ks[..i], before, now)
    {
      BehindNext(ks, before, now, i);
      next := Max(next, before[ks[i]] + PACE);
    }
    assert ks[..|ks|] == ks && missing[0..] == missing;
    for i := 0 to |missing|
      invariant Armed(pending, missing[i..], next) == Arm(before, missing, now)
    {
      ArmedNext(pending, missing, next, i);
      if missing[i] !in pending {
        pending := pending[missing[i] := next];
        next := next + PACE;
      }
    }
    ArmedNone(pending, next);
    assert missing[|missing|..] == [];
  }

  lemma NothingAhead(ks: seq<Path>, pending: Moments, now: int)
    ensures Behind(ks[..0], pending, now) == now
  {
  }

  lemma ArmedNone(pending: Moments, next: int)
    ensures Armed(pending, [], next) == pending
  {
  }

  // ---- The rungs keep their distance ----

  ghost predicate Apart(a: int, b: int) {
    a + PACE <= b || b + PACE <= a
  }

  ghost predicate Spaced(pending: Moments) {
    forall p, q :: p in pending && q in pending && p != q ==> Apart(pending[p], pending[q])
  }

  ghost predicate Clear(pending: Moments, next: int) {
    forall p :: p in pending ==> pending[p] + PACE <= next
  }

  lemma {:induction false} BehindIsClear(ks: seq<Path>, pending: Moments, now: int)
    requires forall i :: 0 <= i < |ks| ==> ks[i] in pending
    ensures now <= Behind(ks, pending, now)
    ensures forall i :: 0 <= i < |ks| ==> pending[ks[i]] + PACE <= Behind(ks, pending, now)
  {
    if ks != [] {
      BehindIsClear(ks[..|ks| - 1], pending, now);
    }
  }

  lemma RungAdded(pending: Moments, p: Path, next: int)
    requires Spaced(pending) && Clear(pending, next) && p !in pending
    ensures Spaced(pending[p := next]) && Clear(pending[p := next], next + PACE)
    ensures Clear(pending, next + PACE)
  {
  }

  lemma {:induction false} ArmedSpaced(pending: Moments, missing: seq<Path>, next: int)
    requires Spaced(pending) && Clear(pending, next)
    ensures Spaced(Armed(pending, missing, next))
    decreases |missing|
  {
    hide Spaced, Clear;
    if |missing| > 0 {
      var p, rest := missing[0], missing[1..];
      if p in pending {
        ArmedSpaced(pending, rest, next);
      } else {
        RungAdded(pending, p, next);
        ArmedSpaced(pending[p := next], rest, next + PACE);
      }
    }
  }

  lemma {:induction false} ArmedKeeps(pending: Moments, missing: seq<Path>, next: int)
    ensures Armed(pending, missing, next).Keys == pending.Keys + set p | p in missing
    ensures forall p :: p in pending ==> Armed(pending, missing, next)[p] == pending[p]
    ensures forall p :: p in missing && p !in pending ==> next <= Armed(pending, missing, next)[p]
    decreases |missing|
  {
    if |missing| > 0 {
      var p, rest := missing[0], missing[1..];
      assert missing == [p] + rest;
      if p in pending {
        ArmedKeeps(pending, rest, next);
      } else {
        ArmedKeeps(pending[p := next], rest, next + PACE);
      }
    }
  }

  /** Arming takes on every missing path, on a rung of its own, and never moves one already
      waiting. */
  lemma ArmKeeps(pending: Moments, missing: seq<Path>, now: int)
    ensures Spaced(pending) ==> Spaced(Arm(pending, missing, now))
    ensures Arm(pending, missing, now).Keys == pending.Keys + set p | p in missing
    ensures forall p :: p in pending ==> Arm(pending, missing, now)[p] == pending[p]
    ensures forall p :: p in missing && p !in pending ==> now <= Arm(pending, missing, now)[p]
  {
    var ks := Sorted(pending.Keys);
    assert forall i :: 0 <= i < |ks| ==> ks[i] in pending.Keys;
    BehindIsClear(ks, pending, now);
    forall p | p in pending
      ensures pending[p] + PACE <= Behind(ks, pending, now)
    {
      assert p in ks;
    }
    if Spaced(pending) {
      ArmedSpaced(pending, missing, Behind(ks, pending, now));
    }
    ArmedKeeps(pending, missing, Behind(ks, pending, now));
  }

  // ---- Which rung exactly ----

  /** The first rung: now, or twenty milliseconds behind the last one waiting if that is later. */
  ghost predicate IsStart(pending: Moments, now: int, start: int) {
    && now <= start && (forall p :: p in pending ==> pending[p] + 20_000_000 <= start)
    && (start == now || exists p :: p in pending && start == pending[p] + 20_000_000)
  }

  /** What is new among the missing, once each and in the order given. */
  function NewOnes(known: set<Path>, missing: seq<Path>): (new': seq<Path>)
    ensures forall p :: p in new' <==> p in missing && p !in known
    ensures forall i, j :: 0 <= i < j < |new'| ==> new'[i] != new'[j]
    decreases |missing|
  {
    if |missing| == 0 then []
    else
      assert missing == [missing[0]] + missing[1..];
      if missing[0] in known then NewOnes(known, missing[1..])
      else [missing[0]] + NewOnes(known + {missing[0]}, missing[1..])
  }

  lemma {:induction false} BehindIsStart(ks: seq<Path>, pending: Moments, now: int)
    requires forall i :: 0 <= i < |ks| ==> ks[i] in pending
    ensures Behind(ks, pending, now) == now
            || exists p :: p in pending && Behind(ks, pending, now) == pending[p] + 20_000_000
  {
    if ks != [] {
      BehindIsStart(ks[..|ks| - 1], pending, now);
      var last := ks[|ks| - 1];
      assert last in pending;
    }
  }

  lemma {:induction false} ArmedExactly(pending: Moments, missing: seq<Path>, next: int, k: nat)
    requires k < |NewOnes(pending.Keys, missing)|
    ensures var p := NewOnes(pending.Keys, missing)[k];
            p in Armed(pending, missing, next) && Armed(pending, missing, next)[p] == next + k * 20_000_000
    decreases |missing|
  {
    if |missing| > 0 {
      var p, rest := missing[0], missing[1..];
      if p in pending {
        ArmedExactly(pending, rest, next, k);
      } else {
        var more := pending[p := next];
        assert more.Keys == pending.Keys + {p};
        if k == 0 {
          ArmedKeeps(more, rest, next + PACE);
        } else {
          ArmedExactly(more, rest, next + PACE, k - 1);
        }
      }
    }
  }

  lemma StartOf(pending: Moments, now: int)
    ensures IsStart(pending, now, Behind(Sorted(pending.Keys), pending, now))
  {
    hide Behind, Sorted;
    var ks := Sorted(pending.Keys);
    assert forall i :: 0 <= i < |ks| ==> ks[i] in pending.Keys;
    BehindIsClear(ks, pending, now);
    BehindIsStart(ks, pending, now);
    forall p | p in pending
      ensures pending[p] + 20_000_000 <= Behind(ks, pending, now)
    {
      assert p in ks;
    }
  }

  /** On consecutive rungs from `start`, in this order. */
  ghost predicate OnRungs(after: Moments, ks: seq<Path>, start: int) {
    forall k :: 0 <= k < |ks| ==> ks[k] in after && after[ks[k]] == start + k * 20_000_000
  }

  ghost predicate Kept(pending: Moments, after: Moments) {
    forall p :: p in pending ==> p in after && after[p] == pending[p]
  }

  /** Arming puts the new ones, in the order they are missing, on consecutive rungs twenty milliseconds
      apart, the first of them due at once unless others wait. */
  lemma ArmExactly(pending: Moments, missing: seq<Path>, now: int) returns (start: int)
    ensures IsStart(pending, now, start)
    ensures var after := Arm(pending, missing, now);
            && (forall p :: p in after <==> p in pending || p in missing)
            && Kept(pending, after) && OnRungs(after, NewOnes(pending.Keys, missing), start)
  {
    hide Armed, Behind, Sorted, IsStart, NewOnes;
    start := Behind(Sorted(pending.Keys), pending, now);
    StartOf(pending, now);
    ArmedKeeps(pending, missing, start);
    forall k | 0 <= k < |NewOnes(pending.Keys, missing)|
      ensures var p := NewOnes(pending.Keys, missing)[k];
              p in Arm(pending, missing, now) && Arm(pending, missing, now)[p] == start + k * 20_000_000
    {
      ArmedExactly(pending, missing, start, k);
    }
  }

  lemma LatestExists(s: set<Path>, pending: Moments) returns (last: Path)
    requires s != {} && s <= pending.Keys
    ensures last in s && forall p :: p in s ==> pending[p] <= pending[last]
  {
    last :| last in s;
    if s != {last} {
      var other := LatestExists(s - {last}, pending);
      if pending[last] < pending[other] {
        last := other;
      }
    }
  }

  /** However many paths wait, only so many rungs fit between two moments. */
  lemma {:induction false} RungsFit(s: set<Path>, pending: Moments, from: int, to: int)
    requires Spaced(pending) && s <= pending.Keys && from <= to
    requires forall p :: p in s ==> from <= pending[p] <= to
    ensures |s| <= (to - from) / PACE + 1
    decreases |s|
  {
    if s != {} {
      var last := LatestExists(s, pending);
      var rest := s - {last};
      assert |s| == |rest| + 1;
      if rest != {} {
        forall p | p in rest
          ensures pending[p] <= to - PACE
        {
          assert Apart(pending[p], pending[last]);
        }
        var p :| p in rest;
        RungsFit(rest, pending, from, to - PACE);
      }
    }
  }

  // ---- Over whole runs ----

  datatype Step = Arming(missing: seq<Path>, now: int) | Handing(now: int) | Dropping(path: Path)

  /** The waiting repairs, the moment of the last step and of the last time repairs were handed
      out. */
  datatype Clocked = Clocked(pending: Moments, clock: int, handed: int)

  predicate Enabled(s: Clocked, step: Step) {
    step.Dropping? || s.clock <= step.now
  }

  function After(s: Clocked, step: Step): (after: Clocked) {
    match step
    case Arming(missing, now) => s.(pending := Arm(s.pending, missing, now), clock := now)
    case Handing(now) => Clocked(Waiting(s.pending, now), now, now)
    case Dropping(path) => s.(pending := s.pending - {path})
  }

  ghost predicate Run(s: Clocked, steps: seq<Step>, t: Clocked)
    decreases |steps|
  {
    if |steps| == 0 then s == t else Enabled(s, steps[0]) && Run(After(s, steps[0]), steps[1..], t)
  }

  ghost predicate Paced(s: Clocked) {
    && Spaced(s.pending) && s.handed <= s.clock
    && forall p :: p in s.pending ==> s.handed <= s.pending[p]
  }

  lemma StepKeepsPace(s: Clocked, step: Step)
    requires Paced(s) && Enabled(s, step)
    ensures Paced(After(s, step))
    ensures step.Arming? ==>
      forall p :: p in s.pending ==>
        p in After(s, step).pending && After(s, step).pending[p] == s.pending[p]
  {
    if step.Arming? {
      ArmKeeps(s.pending, step.missing, step.now);
    }
  }

  /** In every run of arming, handing out and dropping with a clock that does not go back, waiting
      moments stay a pace apart, and the next handing out at `now` is bounded by the time that
      went by since the one before it. */
  lemma {:induction false} RepairsArePaced(s: Clocked, steps: seq<Step>, t: Clocked, now: int)
    requires Paced(s) && Run(s, steps, t) && t.clock <= now
    ensures Paced(t)
    ensures |Ready(t.pending, now)| <= (now - t.handed) / PACE + 1
    decreases |steps|
  {
    if |steps| > 0 {
      StepKeepsPace(s, steps[0]);
      RepairsArePaced(After(s, steps[0]), steps[1..], t, now);
    } else {
      var due := set p | p in t.pending && t.pending[p] <= now;
      RungsFit(due, t.pending, t.handed, now);
    }
  }
}
