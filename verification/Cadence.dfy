/** When a node says where its tree stands, and for how long a peer that said so is remembered. */
module Cadence {
  import opened Paths
  import opened Reconcile

  const SECOND: int := 1_000_000_000
  const PERIOD: int := 5 * SECOND
  const QUIESCENCE: int := 10 * SECOND
  const CEILING: int := 60 * SECOND

  // ---- The sender's clock ----

  /** When the tree was last seen to change and the root hash last went out. */
  datatype Clocks = Clocks(lastState: int, lastChange: int)

  /** One turn of the loop: its moment, whether the monitor woke it, whether every torrent had
      stopped moving when last asked. */
  datatype Tick = Tick(now: int, changed: bool, settled: bool)

  function Listed(c: Clocks, t: Tick): (after: Clocks) {
    if t.changed then c.(lastChange := t.now) else c
  }

  predicate StateDue(c: Clocks, t: Tick) {
    var sinceState := t.now - c.lastState;
    var quiescent := t.settled && t.now - c.lastChange >= QUIESCENCE;
    sinceState >= CEILING || (quiescent && sinceState >= PERIOD)
  }

  function After(c: Clocks, t: Tick): (after: Clocks) {
    var listed := Listed(c, t);
    if StateDue(listed, t) then listed.(lastState := t.now) else listed
  }

  /** The moments the root hash goes out at. */
  function Sends(c: Clocks, ts: seq<Tick>): (moments: seq<int>)
    decreases |ts|
  {
    if |ts| == 0 then []
    else (if StateDue(Listed(c, ts[0]), ts[0]) then [ts[0].now] else []) + Sends(After(c, ts[0]), ts[1..])
  }

  /** Turns no more than `d` apart, the first no later than that after `now`. */
  ghost predicate Ticking(now: int, ts: seq<Tick>, d: int)
    decreases |ts|
  {
    |ts| == 0 || (now <= ts[0].now <= now + d && Ticking(ts[0].now, ts[1..], d))
  }

  function LastTurn(now: int, ts: seq<Tick>): (moment: int) {
    if |ts| == 0 then now else ts[|ts| - 1].now
  }

  /** Each send follows the one before it, the first `last`, by at least `low` and less than `high`. */
  ghost predicate SendsApart(last: int, sends: seq<int>, low: int, high: int)
    decreases |sends|
  {
    |sends| == 0 || (low <= sends[0] - last < high && SendsApart(sends[0], sends[1..], low, high))
  }

  function Latest(last: int, sends: seq<int>): (moment: int) {
    if |sends| == 0 then last else sends[|sends| - 1]
  }

  lemma LastTurnOnwards(now: int, ts: seq<Tick>)
    requires |ts| > 0
    ensures LastTurn(ts[0].now, ts[1..]) == LastTurn(now, ts)
  {
  }

  /** In every run, counting from the start or the send before it, one root hash follows another no
      sooner than a period and before a turn past the ceiling, and at no turn is the last one a
      ceiling old. */
  lemma {:induction false} SendsArePaced(c: Clocks, now: int, ts: seq<Tick>, d: int)
    requires c.lastState <= now < c.lastState + CEILING && d >= 0 && Ticking(now, ts, d)
    ensures SendsApart(c.lastState, Sends(c, ts), PERIOD, CEILING + d)
    ensures var latest := Latest(c.lastState, Sends(c, ts));
            latest <= LastTurn(now, ts) < latest + CEILING
    decreases |ts|
  {
    if |ts| > 0 {
      var t, after := ts[0], After(c, ts[0]);
      LastTurnOnwards(now, ts);
      SendsArePaced(after, t.now, ts[1..], d);
      var rest := Sends(after, ts[1..]);
      if StateDue(Listed(c, t), t) {
        assert Sends(c, ts) == [t.now] + rest;
        assert ([t.now] + rest)[1..] == rest;
      } else {
        assert Sends(c, ts) == rest;
      }
    }
  }

  /** When a round goes out, to the nanosecond: a node whose tree moved within the last ten seconds, or
      which is still receiving, says where it stands a minute after it last did, and a quiet one five
      seconds after; a change is remembered from its turn on. */
  lemma RoundExactly(c: Clocks, t: Tick)
    requires c.lastState <= t.now
    ensures var quiet := t.settled && !t.changed && t.now - c.lastChange >= 10_000_000_000;
            && (StateDue(Listed(c, t), t) <==>
                  t.now - c.lastState >= if quiet then 5_000_000_000 else 60_000_000_000)
            && After(c, t) == Clocks(if StateDue(Listed(c, t), t) then t.now else c.lastState,
                                     if t.changed then t.now else c.lastChange)
  {
  }

  ghost predicate Quiet(ts: seq<Tick>) {
    forall i :: 0 <= i < |ts| ==> ts[i].settled && !ts[i].changed
  }

  ghost predicate Busy(ts: seq<Tick>) {
    forall i :: 0 <= i < |ts| ==> !ts[i].settled || ts[i].changed
  }

  /** As long as a node's tree stays as it is and nothing is in transfer, its root hash goes out every
      period and never a turn later. */
  lemma {:induction false} QuietNodesKeepThePeriod(c: Clocks, now: int, ts: seq<Tick>, d: int)
    requires c.lastState <= now < c.lastState + PERIOD && d >= 0 && Ticking(now, ts, d)
    requires Quiet(ts) && now - c.lastChange >= QUIESCENCE
    ensures SendsApart(c.lastState, Sends(c, ts), PERIOD, PERIOD + d)
    decreases |ts|
  {
    if |ts| > 0 {
      var t := ts[0];
      RoundExactly(c, t);
      QuietNodesKeepThePeriod(After(c, t), t.now, ts[1..], d);
      SendsUnfold(c, ts);
    }
  }

  /** As long as it changes or receives at every turn, every minute and no sooner. */
  lemma {:induction false} BusyNodesKeepTheCeiling(c: Clocks, now: int, ts: seq<Tick>, d: int)
    requires c.lastState <= now < c.lastState + CEILING && d >= 0 && Ticking(now, ts, d)
    requires Busy(ts)
    ensures SendsApart(c.lastState, Sends(c, ts), CEILING, CEILING + d)
    decreases |ts|
  {
    if |ts| > 0 {
      var t := ts[0];
      RoundExactly(c, t);
      BusyNodesKeepTheCeiling(After(c, t), t.now, ts[1..], d);
      SendsUnfold(c, ts);
    }
  }

  lemma SendsUnfold(c: Clocks, ts: seq<Tick>)
    requires |ts| > 0
    ensures var rest := Sends(After(c, ts[0]), ts[1..]);
            if StateDue(Listed(c, ts[0]), ts[0])
            then Sends(c, ts) == [ts[0].now] + rest && Sends(c, ts)[1..] == rest
            else Sends(c, ts) == rest
  {
    var rest := Sends(After(c, ts[0]), ts[1..]);
    assert ([ts[0].now] + rest)[1..] == rest;
    assert [] + rest == rest;
  }

  // ---- The receiver's record ----

  datatype Event = Hears(endpoint: Bytes, root: Bytes, at: int) | GoesRound(now: int)

  function Moment(e: Event): (moment: int) {
    match e
    case Hears(_, _, at) => at
    case GoesRound(now) => now
  }

  function Record(peers: map<Bytes, Heard>, own: Bytes, e: Event): (record: map<Bytes, Heard>) {
    match e
    case Hears(endpoint, root, at) => if endpoint == own then peers else peers[endpoint := Heard(root, at)]
    case GoesRound(now) => Speaking(peers, now)
  }

  function Recorded(own: Bytes, es: seq<Event>): (record: map<Bytes, Heard>) {
    if |es| == 0 then map[] else Record(Recorded(own, es[..|es| - 1]), own, es[|es| - 1])
  }

  /** A clock that does not go back. */
  ghost predicate Forwards(es: seq<Event>) {
    forall i, j :: 0 <= i < j < |es| ==> Moment(es[i]) <= Moment(es[j])
  }

  function LastHeard(es: seq<Event>, endpoint: Bytes): (last: Option<Heard>) {
    if |es| == 0 then None
    else
      var e := es[|es| - 1];
      if e.Hears? && e.endpoint == endpoint then Some(Heard(e.root, e.at)) else LastHeard(es[..|es| - 1], endpoint)
  }

  lemma {:induction false} LastHeardIsLatest(es: seq<Event>, endpoint: Bytes, i: nat)
    requires Forwards(es) && i < |es| && es[i].Hears? && es[i].endpoint == endpoint
    ensures LastHeard(es, endpoint).Some? && es[i].at <= LastHeard(es, endpoint).value.at
  {
    var e := es[|es| - 1];
    if !(e.Hears? && e.endpoint == endpoint) {
      LastHeardIsLatest(es[..|es| - 1], endpoint, i);
    } else if i < |es| - 1 {
      assert Moment(es[i]) <= Moment(es[|es| - 1]);
    }
  }

  /** Whatever was heard and however rounds fell in between, what is on record after a round is
      exactly each peer heard from within the last three minutes, with what it said last. */
  lemma {:induction false} RecordIsTheLastHeard(own: Bytes, es: seq<Event>, endpoint: Bytes)
    requires Forwards(es) && endpoint != own
    ensures var peers, last := Recorded(own, es), LastHeard(es, endpoint);
            && (endpoint in peers ==> last == Some(peers[endpoint]))
            && (last.Some? && |es| > 0 && Moment(es[|es| - 1]) - last.value.at <= PEER_SILENCE ==>
                  endpoint in peers)
            && (|es| > 0 && es[|es| - 1].GoesRound? && endpoint in peers ==>
                  Moment(es[|es| - 1]) - last.value.at <= PEER_SILENCE)
  {
    if |es| > 1 {
      RecordIsTheLastHeard(own, es[..|es| - 1], endpoint);
      assert Moment(es[|es| - 2]) <= Moment(es[|es| - 1]);
    } else if |es| == 1 {
      assert es[..0] == [];
    }
  }

  /** A node never has itself on record. */
  lemma {:induction false} NeverItself(own: Bytes, es: seq<Event>)
    ensures own !in Recorded(own, es)
  {
    if |es| > 0 {
      NeverItself(own, es[..|es| - 1]);
    }
  }

  /** Whoever a round asks spoke within the last three minutes, last said a root hash other than
      this node's, and is not this node. */
  method AskSpeaking(own: Bytes, es: seq<Event>, now: int, mine: Bytes) returns (asked: Option<Bytes>)
    requires Forwards(es + [GoesRound(now)])
    ensures asked.Some? ==>
      && asked.value != own
      && LastHeard(es, asked.value).Some?
      && LastHeard(es, asked.value).value.root != mine
      && now - LastHeard(es, asked.value).value.at <= PEER_SILENCE
    ensures asked.None? ==> forall e ::
      (e != own && LastHeard(es, e).Some? && now - LastHeard(es, e).value.at <= PEER_SILENCE) ==>
      LastHeard(es, e).value.root == mine
  {
    ghost var all := es + [GoesRound(now)];
    assert all[..|all| - 1] == es;
    asked := Pick(Speaking(Recorded(own, es), now), mine);
    NeverItself(own, es);
    forall e | e != own
      ensures var last := LastHeard(es, e);
              && (e in Recorded(own, all) <==> last.Some? && now - last.value.at <= PEER_SILENCE)
              && (e in Recorded(own, all) ==> last == Some(Recorded(own, all)[e]))
    {
      RecordIsTheLastHeard(own, all, e);
    }
  }

  // ---- A peer heard often enough ----

  /** What became of each send: lost, or received at some moment no more than `jitter` later. Of any
      `k` in a row at least one is received. */
  ghost predicate Delivers(sends: seq<int>, received: seq<Option<int>>, k: nat, jitter: int) {
    && |received| == |sends|
    && (forall i :: 0 <= i < |sends| && received[i].Some? ==>
          sends[i] <= received[i].value <= sends[i] + jitter)
    && (forall i :: 0 <= i <= |sends| - k ==> OneOf(received, i, k))
  }

  ghost predicate OneOf(received: seq<Option<int>>, from: nat, k: nat)
    requires from + k <= |received|
  {
    exists m :: from <= m < from + k && received[m].Some?
  }

  ghost predicate Climbing(sends: seq<int>, gap: int) {
    gap >= 0 && forall i :: 0 <= i < |sends| - 1 ==> sends[i] <= sends[i + 1] <= sends[i] + gap
  }

  lemma {:induction false} PacedClimbs(last: int, sends: seq<int>, low: int, high: int)
    requires 0 <= low < high && SendsApart(last, sends, low, high)
    ensures Climbing(sends, high)
    decreases |sends|
  {
    if |sends| > 1 {
      PacedClimbs(sends[0], sends[1..], low, high);
      forall i | 0 <= i < |sends| - 1
        ensures sends[i] <= sends[i + 1] <= sends[i] + high
      {
        assert sends[i + 1] == sends[1..][i];
        if i > 0 {
          assert sends[i] == sends[1..][i - 1];
        }
      }
    }
  }

  lemma {:induction false} Climb(sends: seq<int>, gap: int, i: nat, j: nat)
    requires Climbing(sends, gap) && i <= j < |sends|
    ensures sends[i] <= sends[j] <= sends[i] + (j - i) * gap
  {
    if i < j {
      Climb(sends, gap, i, j - 1);
      assert (j - i) * gap == (j - 1 - i) * gap + gap;
    }
  }

  /** How many of the sends had certainly arrived, or been lost, by `now`. */
  ghost function Arrived(sends: seq<int>, now: int, jitter: int): (n: nat)
    ensures n <= |sends|
    ensures n > 0 ==> sends[n - 1] + jitter <= now
    ensures n < |sends| ==> now < sends[n] + jitter
  {
    if |sends| == 0 then 0
    else if sends[0] + jitter > now then 0 else Arrived(sends[1..], now, jitter) + 1
  }

  lemma {:induction false} TimesAreMonotone(a: nat, b: nat, gap: int)
    requires a <= b && gap >= 0
    ensures a * gap <= b * gap
  {
    if a < b {
      TimesAreMonotone(a, b - 1, gap);
      assert b * gap == (b - 1) * gap + gap;
    }
  }

  /** `n` gaps and the jitter reach from the first of `n` sends past `now`. */
  lemma Reaches(sends: seq<int>, jitter: int, gap: int, now: int, from: nat, n: nat)
    requires jitter >= 0 && Climbing(sends, gap) && |sends| > 0 && now <= sends[|sends| - 1] + gap
    requires from <= n <= |sends| && from < |sends| && (n < |sends| ==> now < sends[n] + jitter)
    ensures now <= sends[from] + (n - from) * gap + jitter
  {
    if n < |sends| {
      Climb(sends, gap, from, n);
    } else {
      Climb(sends, gap, from, n - 1);
      assert (n - from) * gap == (n - 1 - from) * gap + gap;
    }
  }

  /** While sends keep coming, something was received no longer ago than `k` gaps and the jitter. */
  lemma ReceivedRecently(sends: seq<int>, received: seq<Option<int>>, k: nat, jitter: int, gap: int, now: int, first: nat)
    returns (m: nat)
    requires k > 0 && jitter >= 0 && Climbing(sends, gap) && Delivers(sends, received, k, jitter)
    requires |sends| > 0 && now <= sends[|sends| - 1] + gap
    requires first < |sends| && received[first].Some? && received[first].value <= now
    ensures m < |sends| && received[m].Some? && received[m].value <= now
    ensures now - received[m].value <= k * gap + jitter
  {
    var n := Arrived(sends, now, jitter);
    hide Arrived;
    if n < k {
      m := first;
      Climb(sends, gap, 0, m);
      Reaches(sends, jitter, gap, now, 0, n);
      TimesAreMonotone(n, k, gap);
    } else {
      assert OneOf(received, n - k, k);
      m :| n - k <= m < n && received[m].Some?;
      Climb(sends, gap, m, n - 1);
      Reaches(sends, jitter, gap, now, m, n);
      TimesAreMonotone(n - m, k, gap);
    }
  }

  /** A peer whose turns are at most `d` apart and of whose root hashes one in every `k` arrives is
      never dropped once it has been heard, as long as `k` of the longest waits and the jitter fit
      in three minutes. */
  lemma HeardOftenEnoughIsKept(
      c: Clocks, start: int, ts: seq<Tick>, d: int,                           // the peer
      received: seq<Option<int>>, k: nat, jitter: int,                        // the way here
      own: Bytes, es: seq<Event>, endpoint: Bytes, now: int, first: nat)      // this node
    requires c.lastState <= start < c.lastState + CEILING && d >= 0 && Ticking(start, ts, d)
    requires var sends := Sends(c, ts);
      && k > 0 && jitter >= 0 && Delivers(sends, received, k, jitter)
      && first < |sends| && |received| == |sends| && received[first].Some? && received[first].value <= now
    requires now <= LastTurn(start, ts)
    requires k * (CEILING + d) + jitter <= PEER_SILENCE
    requires Forwards(es + [GoesRound(now)]) && endpoint != own
    requires forall m :: 0 <= m < |received| && received[m].Some? && received[m].value <= now ==>
      exists root :: Hears(endpoint, root, received[m].value) in es
    ensures endpoint in Recorded(own, es + [GoesRound(now)])
  {
    hide Sends, LastTurn, Ticking, SendsApart, Recorded, Climbing, Delivers;
    var sends := Sends(c, ts);
    SendsArePaced(c, start, ts, d);
    PacedClimbs(c.lastState, sends, PERIOD, CEILING + d);
    var m := ReceivedRecently(sends, received, k, jitter, CEILING + d, now, first);
    StaysOnRecord(own, es, endpoint, now, received[m].value);
  }

  lemma StaysOnRecord(own: Bytes, es: seq<Event>, endpoint: Bytes, now: int, at: int)
    requires Forwards(es + [GoesRound(now)]) && endpoint != own && now - at <= PEER_SILENCE
    requires exists root :: Hears(endpoint, root, at) in es
    ensures endpoint in Recorded(own, es + [GoesRound(now)])
  {
    var root :| Hears(endpoint, root, at) in es;
    var heard := es + [GoesRound(now)];
    var i :| 0 <= i < |es| && es[i] == Hears(endpoint, root, at);
    assert heard[i] == es[i];
    LastHeardIsLatest(heard, endpoint, i);
    RecordIsTheLastHeard(own, heard, endpoint);
  }
}
