/** The pinned form of a set of timed paths: what `encode` writes and `decode_held` and
    `decode_tombstones` read. */
module Wire {
  import opened Paths
  import opened Decimal
  import opened Framing

  type TimeMap = map<Path, Ticks>

  /** One entry of a timed map, as a loop over the map sees it. */
  datatype Timed = Timed(path: Path, at: Ticks)

  /** The entries of a map in key order. */
  function Listing(m: TimeMap): (es: seq<Timed>)
    ensures |es| == |m|
    ensures forall i :: 0 <= i < |es| ==> es[i].path in m && es[i].at == m[es[i].path]
    ensures forall i :: 0 <= i < |es| ==> es[i].path == Sorted(m.Keys)[i]
  {
    var ks := Sorted(m.Keys);
    seq(|ks|, i requires 0 <= i < |ks| => assert ks[i] in m.Keys; Timed(ks[i], m[ks[i]]))
  }

  lemma ListingCovers(m: TimeMap, p: Path) returns (i: nat)
    requires p in m
    ensures i < |m| && Listing(m)[i] == Timed(p, m[p])
  {
    var ks := Sorted(m.Keys);
    assert p in ks;
    i :| i < |ks| && ks[i] == p;
  }

  function FrameOf(e: Timed): (f: Frame) {
    Frame(e.path, Print(e.at))
  }

  function FramesOf(es: seq<Timed>): (fs: seq<Frame>)
    ensures |fs| == |es|
    ensures forall i :: 0 <= i < |fs| ==> fs[i] == FrameOf(es[i])
  {
    seq(|es|, i requires 0 <= i < |es| => FrameOf(es[i]))
  }

  ghost function Encoded(m: TimeMap): (form: Bytes) {
    Form(FramesOf(Listing(m)))
  }

  lemma EncodeStep(es: seq<Timed>, i: nat)
    requires i < |es|
    ensures Form(FramesOf(es[..i + 1])) == Form(FramesOf(es[..i])) + Entry(FrameOf(es[i]))
  {
    var done, f := FramesOf(es[..i]), FrameOf(es[i]);
    FormExtend(done, f);
    assert FramesOf(es[..i + 1]) == done + [f];
  }

  method Encode(m: TimeMap) returns (out: Bytes)
    ensures out == Encoded(m)
  {
    out := [];
    var es := Listing(m);
    for i := 0 to |es|
      invariant out == Form(FramesOf(es[..i]))
    {
      EncodeStep(es, i);
      var f := FrameOf(es[i]);
      out := out + Entry(f);
    }
    assert es[..|es|] == es;
  }

  /** Later entries overwrite earlier ones. */
  function Overlay(acc: TimeMap, fs: seq<Frame>): (after: TimeMap)
    decreases |fs|
  {
    if |fs| == 0 then acc else Overlay(acc[fs[0].key := FromTicks(fs[0].text)], fs[1..])
  }

  function Decoded(form: Bytes): (m: TimeMap) {
    Overlay(map[], Frames(form, 0))
  }

  /** One turn of the reading loop: the entry at `at`, if both of its fields close. */
  method NextEntry(form: Bytes, at: nat) returns (found: bool, f: Frame, next: nat)
    requires at <= |form|
    ensures !found ==> Frames(form, at) == []
    ensures found ==> at < next <= |form| && Frames(form, at) == [f] + Frames(form, next)
  {
    found, f, next := false, Frame([], []), at;
    var keyEnd := Find(form, at);
    if keyEnd == |form| {
      return;
    }
    var textEnd := Find(form, keyEnd + 1);
    if textEnd == |form| {
      return;
    }
    f := Frame(Field(form, at, keyEnd), Field(form, keyEnd + 1, textEnd));
    ReadOne(form, at, keyEnd, textEnd, f);
    found, next := true, textEnd + 1;
  }

  lemma OverlayCons(acc: TimeMap, f: Frame, fs: seq<Frame>)
    ensures Overlay(acc, [f] + fs) == Overlay(acc[f.key := FromTicks(f.text)], fs)
  {
    assert ([f] + fs)[1..] == fs;
  }

  method Decode(form: Bytes) returns (m: TimeMap)
    ensures m == Decoded(form)
  {
    m := map[];
    var at := 0;
    ghost var left := Frames(form, 0);
    while at < |form|
      invariant 0 <= at <= |form|
      invariant left == Frames(form, at) && Overlay(m, left) == Decoded(form)
    {
      var found, f, next := NextEntry(form, at);
      if !found {
        return;
      }
      left := Frames(form, next);
      OverlayCons(m, f, left);
      m := m[f.key := FromTicks(f.text)];
      at := next;
    }
  }

  // ---- Reading back what was written ----

  /** Putting entries into a map one after the other. */
  function Onto(acc: TimeMap, es: seq<Timed>): (after: TimeMap)
    decreases |es|
  {
    if |es| == 0 then acc else Onto(acc[es[0].path := es[0].at], es[1..])
  }

  lemma {:induction false} OverlayIsOnto(acc: TimeMap, es: seq<Timed>)
    ensures Overlay(acc, FramesOf(es)) == Onto(acc, es)
    decreases |es|
  {
    if |es| > 0 {
      PrintThenRead(es[0].at);
      assert FramesOf(es)[1..] == FramesOf(es[1..]);
      OverlayIsOnto(acc[es[0].path := es[0].at], es[1..]);
    }
  }

  ghost function PathsOf(es: seq<Timed>): (paths: set<Path>) {
    set e | e in es :: e.path
  }

  /** The part of a map on the given paths. */
  ghost function Slice(m: TimeMap, s: set<Path>): (slice: TimeMap) {
    map p | p in m && p in s :: m[p]
  }

  lemma WholeSlice(m: TimeMap)
    ensures Slice(m, Visited(Sorted(m.Keys), 0)) == map[]
    ensures Slice(m, Visited(Sorted(m.Keys), |m|)) == m
  {
    hide Sorted;
    VisitedAll(m.Keys);
    assert Slice(m, m.Keys) == m;
    assert Visited(Sorted(m.Keys), 0) == {};
    assert Slice(m, {}) == map[];
  }

  ghost predicate Agrees(es: seq<Timed>, m: TimeMap) {
    forall i :: 0 <= i < |es| ==> es[i].path in m && m[es[i].path] == es[i].at
  }

  lemma PathsCons(es: seq<Timed>)
    requires |es| > 0
    ensures PathsOf(es) == {es[0].path} + PathsOf(es[1..])
  {
    assert es == [es[0]] + es[1..];
  }

  lemma SliceCons(acc: TimeMap, e: Timed, s: set<Path>, m: TimeMap)
    requires e.path in m && m[e.path] == e.at
    ensures acc[e.path := e.at] + Slice(m, s) == acc + Slice(m, {e.path} + s)
  {
  }

  lemma {:induction false} OntoOwn(acc: TimeMap, es: seq<Timed>, m: TimeMap)
    requires Agrees(es, m)
    ensures Onto(acc, es) == acc + Slice(m, PathsOf(es))
    decreases |es|
  {
    if |es| == 0 {
      assert acc + Slice(m, PathsOf(es)) == acc;
    } else {
      var e, rest := es[0], es[1..];
      OntoOwn(acc[e.path := e.at], rest, m);
      PathsCons(es);
      SliceCons(acc, e, PathsOf(rest), m);
    }
  }

  lemma PathsOfListing(m: TimeMap)
    ensures PathsOf(Listing(m)) == m.Keys && Agrees(Listing(m), m)
  {
    forall p | p in m
      ensures p in PathsOf(Listing(m))
    {
      var i := ListingCovers(m, p);
      assert Listing(m)[i] in Listing(m);
    }
  }

  lemma ReadEntries(es: seq<Timed>, cut: nat)
    requires cut <= |Form(FramesOf(es))|
    ensures Overlay(map[], Frames(Form(FramesOf(es))[..cut], 0)) ==
            Onto(map[], es[..Closed(FramesOf(es), cut)])
  {
    var n := Closed(FramesOf(es), cut);
    ReadForm(FramesOf(es), cut);
    assert FramesOf(es)[..n] == FramesOf(es[..n]);
    OverlayIsOnto(map[], es[..n]);
  }

  lemma SliceOnto(m: TimeMap, n: nat)
    requires n <= |m|
    ensures Onto(map[], Listing(m)[..n]) == Slice(m, PathsOf(Listing(m)[..n]))
  {
    hide Onto, PathsOf, Listing;
    var es := Listing(m)[..n];
    OntoOwn(map[], es, m);
    assert map[] + Slice(m, PathsOf(es)) == Slice(m, PathsOf(es));
  }

  /** What a form cut short decodes to: the entries of its first `n` paths. */
  lemma ReadPrefix(m: TimeMap, cut: nat) returns (n: nat)
    requires cut <= |Encoded(m)|
    ensures n == Closed(FramesOf(Listing(m)), cut) <= |m|
    ensures Decoded(Encoded(m)[..cut]) == Slice(m, PathsOf(Listing(m)[..n]))
  {
    hide Form, Frames, FramesOf, Overlay, Onto, Closed, PathsOf, Listing, Slice;
    n := Closed(FramesOf(Listing(m)), cut);
    ReadEntries(Listing(m), cut);
    SliceOnto(m, n);
  }

  lemma {:induction false} ClosedAll(fs: seq<Frame>)
    ensures Closed(fs, |Form(fs)|) == |fs|
    decreases |fs|
  {
    if |fs| > 0 {
      ClosedAll(fs[1..]);
    }
  }

  lemma AllClosed(m: TimeMap)
    ensures Closed(FramesOf(Listing(m)), |Encoded(m)|) == |m|
  {
    ClosedAll(FramesOf(Listing(m)));
  }

  lemma SliceOfAll(m: TimeMap)
    ensures Slice(m, PathsOf(Listing(m))) == m
  {
    hide Listing;
    PathsOfListing(m);
  }

  /** Reading a whole form gives back the map it was written from. */
  lemma RoundTrip(m: TimeMap)
    ensures Decoded(Encoded(m)) == m
  {
    hide *;
    var form := Encoded(m);
    var n := ReadPrefix(m, |form|);
    AllClosed(m);
    SliceOfAll(m);
    assert form[..|form|] == form;
    assert Listing(m)[..|m|] == Listing(m);
  }

  /** Two sets are spelled the same only if they are the same, so agreement of the forms is
      agreement of the sets. */
  lemma EncodingInjective(a: TimeMap, b: TimeMap)
    ensures Encoded(a) == Encoded(b) <==> a == b
  {
    RoundTrip(a);
    RoundTrip(b);
  }

  /** Where the entry of `p` closes: everything up to and including it has been written by then. */
  ghost function End(m: TimeMap, p: Path): (at: nat)
    requires p in m
  {
    |Encoded(UpTo(m, p))|
  }

  lemma {:induction false} ClosedCounts(fs: seq<Frame>, cut: nat, i: nat)
    requires i < |fs|
    ensures i < Closed(fs, cut) <==> |Form(fs[..i + 1])| <= cut
    decreases i
  {
    var n := |Entry(fs[0])|;
    assert fs[..i + 1] == [fs[0]] + fs[1..][..i];
    FormCons(fs[0], fs[1..][..i]);
    if i > 0 && n <= cut {
      ClosedCounts(fs[1..], cut - n, i - 1);
    }
  }

  ghost function UpTo(m: TimeMap, p: Path): (slice: TimeMap) {
    map q | q in m && (q == p || Less(q, p)) :: m[q]
  }

  /** The listing of the paths up to the `i`-th is the first part of the whole listing. */
  lemma ListingUpTo(m: TimeMap, i: nat)
    requires i < |m|
    ensures Listing(UpTo(m, Listing(m)[i].path)) == Listing(m)[..i + 1]
  {
    var ks := Sorted(m.Keys);
    var upTo := UpTo(m, ks[i]);
    forall q
      ensures q in Sorted(upTo.Keys) <==> q in ks[..i + 1]
    {
      if q in ks {
        AscendingUpTo(ks, i, q);
      } else {
        assert q !in ks[..i + 1];
      }
    }
    AscendingUnique(Sorted(upTo.Keys), ks[..i + 1]);
    SameListing(upTo, m, i + 1);
  }

  lemma SameListing(a: TimeMap, b: TimeMap, n: nat)
    requires n <= |b| && Sorted(a.Keys) == Sorted(b.Keys)[..n]
    requires forall p :: p in a ==> p in b && a[p] == b[p]
    ensures Listing(a) == Listing(b)[..n]
  {
  }

  lemma InPathsOf(m: TimeMap, i: nat, n: nat)
    requires i < |m| && n <= |m|
    ensures Listing(m)[i].path in PathsOf(Listing(m)[..n]) <==> i < n
  {
    var es := Listing(m);
    if i < n {
      assert es[..n][i] in es[..n];
    } else if es[i].path in PathsOf(es[..n]) {
      var e :| e in es[..n] && e.path == es[i].path;
      var j :| 0 <= j < n && es[..n][j] == e;
      AscendingDistinct(Sorted(m.Keys), i, j);
    }
  }

  lemma ReadIffClosed(m: TimeMap, cut: nat, n: nat, p: Path)
    requires p in m && n == Closed(FramesOf(Listing(m)), cut) <= |m|
    ensures p in PathsOf(Listing(m)[..n]) <==> End(m, p) <= cut
  {
    var es := Listing(m);
    var i := ListingCovers(m, p);
    InPathsOf(m, i, n);
    ClosedCounts(FramesOf(es), cut, i);
    ListingUpTo(m, i);
    assert FramesOf(es)[..i + 1] == FramesOf(es[..i + 1]);
  }

  ghost function ClosedBy(m: TimeMap, cut: nat): (closed: set<Path>) {
    set p | p in m && End(m, p) <= cut
  }

  lemma ReadIsClosed(m: TimeMap, cut: nat, n: nat)
    requires n == Closed(FramesOf(Listing(m)), cut) <= |m|
    ensures PathsOf(Listing(m)[..n]) * m.Keys == ClosedBy(m, cut)
  {
    forall p | p in m
      ensures p in PathsOf(Listing(m)[..n]) <==> End(m, p) <= cut
    {
      ReadIffClosed(m, cut, n, p);
    }
  }

  lemma SameSlice(m: TimeMap, a: set<Path>, b: set<Path>)
    requires a * m.Keys == b
    ensures Slice(m, a) == Slice(m, b)
  {
    assert forall p :: p in m ==> (p in a <==> p in a * m.Keys);
  }

  /** A form cut short yields exactly the entries that close inside what is left of it. */
  lemma PrefixDecodes(m: TimeMap, cut: nat)
    requires cut <= |Encoded(m)|
    ensures Decoded(Encoded(m)[..cut]) == Slice(m, ClosedBy(m, cut))
  {
    var n := ReadPrefix(m, cut);
    ReadIsClosed(m, cut, n);
    SameSlice(m, PathsOf(Listing(m)[..n]), ClosedBy(m, cut));
  }

  // ---- The form, entry by entry ----

  lemma KeysGrow(m: TimeMap, p: Path, at: Ticks)
    requires forall q :: q in m ==> Less(q, p)
    ensures p !in m && Sorted(m[p := at].Keys) == Sorted(m.Keys) + [p]
  {
    LessIrreflexive(p);
    assert m[p := at].Keys == m.Keys + {p};
    hide Sorted, Less;
    SortedExtend(m.Keys, p);
  }

  lemma ListingGrows(m: TimeMap, p: Path, at: Ticks)
    requires p !in m && Sorted(m[p := at].Keys) == Sorted(m.Keys) + [p]
    ensures Listing(m[p := at]) == Listing(m) + [Timed(p, at)]
  {
    hide Sorted, Listing;
    var es, more, ks := Listing(m), Listing(m[p := at]), Sorted(m.Keys);
    assert |ks| == |m.Keys| == |es|;
    assert |more| == |Sorted(m[p := at].Keys)| == |ks| + 1;
    forall i | 0 <= i < |es|
      ensures more[i] == es[i]
    {
      assert more[i].path == (ks + [p])[i] == ks[i] == es[i].path;
      assert es[i].path in m;
    }
    assert more[|es|].path == (ks + [p])[|ks|] == p;
  }

  lemma FormGrows(es: seq<Timed>, p: Path, at: Ticks)
    ensures Form(FramesOf(es + [Timed(p, at)])) == Form(FramesOf(es)) + Entry(FrameOf(Timed(p, at)))
  {
    hide Form, FramesOf, Entry, FrameOf;
    var more := es + [Timed(p, at)];
    EncodeStep(more, |es|);
    assert more[..|es|] == es && more[..|es| + 1] == more;
  }

  /** The form is pinned: nothing for the empty map, and for a path behind all others that path, a NUL,
      its ticks in decimal and a NUL. */
  lemma EncodedGrows(m: TimeMap, p: Path, at: Ticks)
    requires forall q :: q in m ==> Less(q, p)
    ensures Encoded(map[]) == []
    ensures Encoded(m[p := at]) == Encoded(m) + (p + [0] + Print(at) + [0])
  {
    KeysGrow(m, p, at);
    NothingEncoded();
    hide Listing, Less, Sorted, Form, FramesOf, Entry, FrameOf, Print;
    ListingGrows(m, p, at);
    FormGrows(Listing(m), p, at);
    EntryIs(p, at);
  }

  lemma NothingEncoded()
    ensures Encoded(map[]) == []
  {
    assert |Listing(map[])| == 0;
  }

  lemma EntryIs(p: Path, at: Ticks)
    ensures Entry(FrameOf(Timed(p, at))) == p + [0] + Print(at) + [0]
  {
  }

  /** Whatever bytes arrive: an entry that closes counts for its path over all before it, one that does not
      for nothing. */
  lemma DecodedGrows(fs: seq<Frame>, p: Path, text: Path, rest: Bytes)
    requires Torn(rest)
    ensures Decoded(rest) == map[]
    ensures Decoded(Form(fs) + p + [0] + text + [0] + rest) == Decoded(Form(fs))[p := FromTicks(text)]
  {
    hide Frames, Form, Torn;
    var f := Frame(p, text);
    var form := Form(fs) + p + [0] + text + [0] + rest;
    FormExtend(fs, f);
    assert form == Form(fs + [f]) + rest;
    WholeTail(form, fs + [f], rest);
    NoTail(fs);
    WholeTail(Form(fs), fs, []);
    NoEntries();
    assert rest == Form([]) + rest;
    WholeTail(rest, [], rest);
    OverlayAppend(map[], fs, f);
  }

  lemma NoTail(fs: seq<Frame>)
    ensures Form(fs) == Form(fs) + [] && Torn([])
  {
  }

  lemma WholeTail(form: Bytes, fs: seq<Frame>, rest: Bytes)
    requires form == Form(fs) + rest && Torn(rest)
    ensures Frames(form, 0) == fs
  {
    assert form[0..] == form;
    TailIsDropped(form, 0, fs, rest);
  }

  lemma {:induction false} OverlayAppend(acc: TimeMap, fs: seq<Frame>, f: Frame)
    ensures Overlay(acc, fs + [f]) == Overlay(acc, fs)[f.key := FromTicks(f.text)]
    decreases |fs|
  {
    if |fs| == 0 {
      assert fs + [f] == [f];
    } else {
      assert (fs + [f])[1..] == fs[1..] + [f];
      OverlayAppend(acc[fs[0].key := FromTicks(fs[0].text)], fs[1..], f);
    }
  }
}
