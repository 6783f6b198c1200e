/** Where a torrent's file is written: the directory chosen for an announced path, and the path the
    file then has. */
module SavePath {
  import opened Paths

  const DOT: Bytes := [46]
  const UP: Bytes := [46, 46]

  /** A name with nothing special about it. */
  predicate Plain(name: Bytes) {
    name != [] && name != DOT && name != UP && SLASH !in name
  }

  // ---- Names and normal form ----

  function Written(ns: seq<Bytes>): (whole: Bytes) {
    if |ns| == 0 then [] else if |ns| == 1 then ns[0] else ns[0] + [SLASH] + Written(ns[1..])
  }

  function Stepped(before: seq<Bytes>, last: Bytes): (after: seq<Bytes>) {
    if last == [] || last == DOT then before
    else if last == UP && |before| > 0 && before[|before| - 1] != UP then before[..|before| - 1]
    else before + [last]
  }

  /** `lexically_normal` on the names of a relative path: empty ones and dots go, and a name followed
      by two dots goes with them. */
  function Resolved(ns: seq<Bytes>): (resolved: seq<Bytes>) {
    if |ns| == 0 then []
    else
      Stepped(Resolved(ns[..|ns| - 1]), ns[|ns| - 1])
  }

  /** Nothing is above the root. */
  function Grounded(ns: seq<Bytes>): (rest: seq<Bytes>) {
    if |ns| > 0 && ns[0] == UP then Grounded(ns[1..]) else ns
  }

  predicate Rooted(s: Bytes) {
    s != [] && s[0] == SLASH
  }

  /** The names normal form leaves of a path. */
  function Left(s: Bytes): (ns: seq<Bytes>) {
    if Rooted(s) then Grounded(Resolved(Names(s))) else Resolved(Names(s))
  }

  /** `lexically_normal`: a path that ends in a separator, a dot or a resolved step up keeps a separator
      at its end, and one that comes to nothing is a dot. */
  function Normal(s: Bytes): (whole: Bytes) {
    if s == [] then []
    else
      var left := Left(s);
      var body := (if Rooted(s) then [SLASH] else []) + Written(left);
      if body == [] then DOT
      else if |left| > 0 && left[|left| - 1] != UP && !Plain(Names(s)[|Names(s)| - 1]) then body + [SLASH]
      else body
  }

  /** A path that names a file. */
  predicate NamesFile(s: Bytes) {
    s != [] && Plain(Names(s)[|Names(s)| - 1])
  }

  /** What a torrent knows of its file: a path below wherever it is written to. */
  predicate IsTail(s: Bytes) {
    NamesFile(s) && !Rooted(s) && forall i :: 0 <= i < |Resolved(Names(s))| ==> Plain(Resolved(Names(s))[i])
  }

  // ---- save_path_for and join ----

  predicate EndsWith(s: Bytes, tail: Bytes) {
    |tail| <= |s| && s[|s| - |tail|..] == tail
  }

  function Trimmed(s: Bytes): (r: Bytes)
    ensures |r| <= |s| && r == s[..|r|]
    ensures forall i :: |r| <= i < |s| ==> s[i] == SLASH
    ensures r == [] || r[|r| - 1] != SLASH
  {
    if s != [] && s[|s| - 1] == SLASH then Trimmed(s[..|s| - 1]) else s
  }

  function Directory(whole: Bytes, tail: Bytes): (directory: Bytes) {
    if !EndsWith(whole, tail) then DOT
    else
      var directory := Trimmed(whole[..|whole| - |tail|]);
      if directory == [] then DOT else directory
  }

  /** A dot if the tail is not at the end of the whole or only separators are before it, and otherwise
      what is before it less the separators at its end. */
  ghost predicate IsDirectory(directory: Bytes, whole: Bytes, tail: Bytes) {
    var n := |whole| - |tail|;
    if n < 0 || whole[n..] != tail || (forall i :: 0 <= i < n ==> whole[i] == 47) then directory == [46]
    else
      && 0 < |directory| <= n && directory == whole[..|directory|] && directory[|directory| - 1] != 47
      && forall i :: |directory| <= i < n ==> whole[i] == 47
  }

  method SavePathFor(announced: Bytes, inTorrent: Bytes) returns (directory: Bytes)
    ensures directory == Directory(Normal(announced), Normal(inTorrent))
    ensures IsDirectory(directory, Normal(announced), Normal(inTorrent))
    ensures directory != [] && directory[|directory| - 1] != SLASH
  {
    hide Normal;
    var whole, tail := Normal(announced), Normal(inTorrent);
    if |whole| < |tail| || whole[|whole| - |tail|..] != tail {
      return DOT;
    }
    directory := whole[..|whole| - |tail|];
    while directory != [] && directory[|directory| - 1] == SLASH
      invariant Trimmed(directory) == Trimmed(whole[..|whole| - |tail|])
    {
      directory := directory[..|directory| - 1];
    }
    if directory == [] {
      return DOT;
    }
  }

  /** Where a torrent is written to, seen from the sync root unless the save path is rooted. */
  function Landed(directory: Bytes, inTorrent: Bytes): (whole: Bytes) {
    Normal(directory + [SLASH] + inTorrent)
  }

  /** The names of the save path a torrent reports, which is complete: below the sync root `root` unless
      it is rooted itself. */
  function Complete(root: seq<Bytes>, directory: Bytes): (ns: seq<Bytes>) {
    if Rooted(directory) then Names(directory)[1..] else root + Names(directory)
  }

  /** `lexically_relative` on names. */
  function Relative(ns: seq<Bytes>, root: seq<Bytes>): (rest: seq<Bytes>)
    decreases |root|
  {
    if |ns| > 0 && |root| > 0 && ns[0] == root[0] then Relative(ns[1..], root[1..])
    else seq(|root|, _ => UP) + ns
  }

  /** `join`: the path of a torrent's file, read back out of its save path and its tail. */
  function Joined(root: seq<Bytes>, directory: Bytes, inTorrent: Bytes): (whole: Bytes) {
    Written(Resolved(Relative(Complete(root, directory), root) + Names(inTorrent)))
  }

  // ---- Splitting and writing are inverse ----

  lemma {:induction false} NamesOfTwo(a: Bytes, b: Bytes)
    ensures Names(a + [SLASH] + b) == Names(a) + Names(b)
  {
    var s := a + [SLASH] + b;
    if a == [] {
      assert s[1..] == b;
    } else {
      assert s[1..] == a[1..] + [SLASH] + b;
      NamesOfTwo(a[1..], b);
    }
  }

  lemma {:induction false} NamesOfName(a: Bytes)
    requires SLASH !in a
    ensures Names(a) == [a]
  {
    if a != [] {
      assert a == [a[0]] + a[1..];
      NamesOfName(a[1..]);
    }
  }

  lemma {:induction false} NamesAreWhole(s: Bytes, i: nat)
    requires i < |Names(s)|
    ensures SLASH !in Names(s)[i]
  {
    if s != [] {
      if s[0] == SLASH {
        if i > 0 { NamesAreWhole(s[1..], i - 1); }
      } else {
        NamesAreWhole(s[1..], i);
      }
    }
  }

  lemma {:induction false} NamesOfWritten(ns: seq<Bytes>)
    requires |ns| > 0 && forall i :: 0 <= i < |ns| ==> SLASH !in ns[i]
    ensures Names(Written(ns)) == ns
  {
    NamesOfName(ns[0]);
    if |ns| > 1 {
      NamesOfWritten(ns[1..]);
      NamesOfTwo(ns[0], Written(ns[1..]));
    }
  }

  lemma {:induction false} WrittenOfTwo(a: seq<Bytes>, b: seq<Bytes>)
    requires |a| > 0 && |b| > 0
    ensures Written(a + b) == Written(a) + [SLASH] + Written(b)
  {
    if |a| == 1 {
      assert (a + b)[1..] == b;
    } else {
      assert (a + b)[1..] == a[1..] + b;
      WrittenOfTwo(a[1..], b);
      assert Written(a + b) == a[0] + [SLASH] + (Written(a[1..]) + [SLASH] + Written(b));
    }
  }

  // ---- Normal form ----

  /** What normal form leaves: names, after as many steps up as could not be resolved. */
  ghost predicate IsResolved(ns: seq<Bytes>) {
    && (forall i :: 0 <= i < |ns| ==> ns[i] == UP || Plain(ns[i]))
    && (forall i :: 0 < i < |ns| && ns[i] == UP ==> ns[i - 1] == UP)
  }

  ghost predicate AllPlain(ns: seq<Bytes>) {
    forall i :: 0 <= i < |ns| ==> Plain(ns[i])
  }

  lemma {:induction false} ResolvedIsResolved(ns: seq<Bytes>)
    requires forall i :: 0 <= i < |ns| ==> SLASH !in ns[i]
    ensures IsResolved(Resolved(ns))
  {
    if |ns| > 0 {
      ResolvedIsResolved(ns[..|ns| - 1]);
    }
  }

  lemma {:induction false} ResolvedStays(ns: seq<Bytes>)
    requires IsResolved(ns)
    ensures Resolved(ns) == ns
  {
    if |ns| > 0 {
      ResolvedStays(ns[..|ns| - 1]);
    }
  }

  lemma NamesHaveNoSlash(s: Bytes)
    ensures forall i :: 0 <= i < |Names(s)| ==> SLASH !in Names(s)[i]
  {
    forall i | 0 <= i < |Names(s)|
      ensures SLASH !in Names(s)[i]
    {
      NamesAreWhole(s, i);
    }
  }

  /** A step up with nothing to resolve it against stays. */
  lemma StepUpShows(ns: seq<Bytes>)
    requires |ns| > 0 && AllPlain(Resolved(ns)) && ns[|ns| - 1] == UP
    ensures var before := Resolved(ns[..|ns| - 1]); |before| > 0 && before[|before| - 1] != UP
  {
    var before := Resolved(ns[..|ns| - 1]);
    var stuck := before + [UP];
    assert !Plain(stuck[|before|]);
  }

  lemma BeforeIsPlain(more: seq<Bytes>)
    requires |more| > 0 && forall i :: 0 <= i < |more| ==> SLASH !in more[i]
    requires AllPlain(Resolved(more))
    ensures var before := Resolved(more[..|more| - 1]);
            AllPlain(before) && (more[|more| - 1] == UP ==> |before| > 0)
  {
    var before := Resolved(more[..|more| - 1]);
    ResolvedIsResolved(more[..|more| - 1]);
    if more[|more| - 1] == UP {
      StepUpShows(more);
    }
    forall i | 0 <= i < |before|
      ensures Plain(before[i])
    {
      if i < |Resolved(more)| {
        assert Resolved(more)[i] == before[i];
      }
    }
  }

  lemma OneMore(ns: seq<Bytes>)
    requires |ns| > 0
    ensures Resolved(ns) == Stepped(Resolved(ns[..|ns| - 1]), ns[|ns| - 1])
  {
  }

  lemma LastStep(above: seq<Bytes>, before: seq<Bytes>, last: Bytes)
    requires AllPlain(before) && (last == UP ==> |before| > 0)
    ensures Stepped(above + before, last) == above + Stepped(before, last)
  {
    var whole := above + before;
    if |before| > 0 {
      assert whole[|whole| - 1] == before[|before| - 1] && Plain(before[|before| - 1]);
      assert whole[..|whole| - 1] == above + before[..|before| - 1];
    }
    assert whole + [last] == above + (before + [last]);
  }

  /** Names that never step up out of where they start resolve on their own, wherever that is. */
  lemma {:induction false} ResolvedBelow(ns: seq<Bytes>, more: seq<Bytes>)
    requires forall i :: 0 <= i < |more| ==> SLASH !in more[i]
    requires AllPlain(Resolved(more))
    ensures Resolved(ns + more) == Resolved(ns) + Resolved(more)
  {
    if |more| == 0 {
      assert ns + more == ns;
    } else {
      var whole, most := ns + more, more[..|more| - 1];
      assert whole[..|whole| - 1] == ns + most;
      BeforeIsPlain(more);
      ResolvedBelow(ns, most);
      LastStep(Resolved(ns), Resolved(most), more[|more| - 1]);
      hide *;
      assert Resolved(whole) == Stepped(Resolved(ns + most), more[|more| - 1]) by {
        OneMore(whole);
      }
      assert Resolved(more) == Stepped(Resolved(most), more[|more| - 1]) by {
        OneMore(more);
      }
    }
  }

  lemma GroundedIsPlain(ns: seq<Bytes>)
    requires IsResolved(ns) && |ns| > 0 && Plain(ns[|ns| - 1])
    ensures var rest := Grounded(ns); |rest| > 0 && AllPlain(rest) && Grounded(rest) == rest
  {
    if ns[0] == UP {
      GroundedIsPlain(ns[1..]);
    } else {
      NoStepLater(ns, |ns|);
    }
  }

  lemma {:induction false} NoStepLater(ns: seq<Bytes>, n: nat)
    requires IsResolved(ns) && n <= |ns| && |ns| > 0 && ns[0] != UP
    ensures AllPlain(ns[..n])
  {
    if n > 0 {
      NoStepLater(ns, n - 1);
      assert n > 1 ==> ns[..n - 1][n - 2] == ns[n - 2];
      forall i | 0 <= i < n
        ensures Plain(ns[..n][i])
      {
        if i < n - 1 {
          assert ns[..n - 1][i] == ns[i];
        }
      }
    }
  }

  /** The names a rooted path resolves to, given those of the path below the root. */
  lemma NamesBelowRoot(s: Bytes)
    requires AllPlain(Resolved(Names(s)))
    ensures Resolved(Names([SLASH] + s)) == Resolved(Names(s))
  {
    assert [SLASH] + s == [] + [SLASH] + s;
    NamesOfTwo([], s);
    NamesHaveNoSlash(s);
    ResolvedBelow([[]], Names(s));
    assert Resolved([[]]) == [];
    assert [] + Resolved(Names(s)) == Resolved(Names(s));
  }

  lemma NormalLeaves(s: Bytes)
    requires NamesFile(s)
    ensures var ns := Left(s);
            && |ns| > 0 && IsResolved(ns) && Plain(ns[|ns| - 1]) && (Rooted(s) ==> AllPlain(ns))
            && Normal(s) == (if Rooted(s) then [SLASH] else []) + Written(ns)
            && Names(Written(ns)) == ns && Written(ns) != [] && !Rooted(Written(ns))
  {
    NamesHaveNoSlash(s);
    ResolvedIsResolved(Names(s));
    if Rooted(s) {
      GroundedIsPlain(Resolved(Names(s)));
    }
    NamesOfWritten(Left(s));
    FirstName(Left(s));
  }

  lemma FirstName(ns: seq<Bytes>)
    requires |ns| > 0 && IsResolved(ns)
    ensures Written(ns) != [] && !Rooted(Written(ns))
  {
    assert ns[0] == UP || Plain(ns[0]);
    assert ns[0] != [] && ns[0][0] != SLASH;
  }

  /** Normal form has no empty name and no dot, steps up only at its start and nowhere below the root,
      and is its own normal form. */
  lemma NormalIsStable(s: Bytes)
    requires NamesFile(s)
    ensures NamesFile(Normal(s)) && Rooted(Normal(s)) == Rooted(s) && Left(Normal(s)) == Left(s)
    ensures IsResolved(Left(s)) && (Rooted(s) ==> AllPlain(Left(s)))
    ensures Normal(Normal(s)) == Normal(s)
  {
    hide Resolved, Names, Written, Grounded, IsResolved, Plain, AllPlain, Normal;
    NormalLeaves(s);
    var below := Written(Left(s));
    ResolvedStays(Left(s));
    if Rooted(s) {
      NamesBelowRoot(below);
      GroundedStays(Left(s));
      RootedNames(below);
    } else {
      assert [] + below == below;
    }
    NormalIs(Normal(s));
    NormalIs(s);
  }

  lemma NormalIs(s: Bytes)
    requires NamesFile(s)
    ensures Normal(s) == if Rooted(s) then [SLASH] + Written(Left(s)) else Written(Left(s))
  {
    hide Normal;
    NormalLeaves(s);
    assert [] + Written(Left(s)) == Written(Left(s));
  }

  lemma GroundedStays(ns: seq<Bytes>)
    requires |ns| > 0 && AllPlain(ns)
    ensures Grounded(ns) == ns
  {
    assert Plain(ns[0]);
  }

  lemma RootedNames(s: Bytes)
    ensures var ns := Names([SLASH] + s); ns[|ns| - 1] == Names(s)[|Names(s)| - 1]
  {
    assert [SLASH] + s == [] + [SLASH] + s;
    NamesOfTwo([], s);
  }

  // ---- The save path puts back what the torrent dropped ----

  lemma TailIs(inTorrent: Bytes)
    requires IsTail(inTorrent)
    ensures var ts := Left(inTorrent);
            && ts == Resolved(Names(inTorrent)) && |ts| > 0 && AllPlain(ts)
            && Normal(inTorrent) == Written(ts) && Names(Written(ts)) == ts
            && Normal(inTorrent) != [] && !Rooted(Normal(inTorrent))
  {
    NormalLeaves(inTorrent);
    assert [] + Written(Left(inTorrent)) == Written(Left(inTorrent));
  }

  lemma LandedNames(directory: Bytes, inTorrent: Bytes)
    requires IsTail(inTorrent) && directory != []
    ensures var joined := directory + [SLASH] + inTorrent;
            && NamesFile(joined) && Rooted(joined) == Rooted(directory)
            && Left(joined) == Left(directory) + Left(inTorrent)
  {
    hide Resolved, Names, Written;
    TailIs(inTorrent);
    NamesOfTwo(directory, inTorrent);
    NamesHaveNoSlash(inTorrent);
    ResolvedBelow(Names(directory), Names(inTorrent));
    GroundedAppend(Resolved(Names(directory)), Left(inTorrent));
  }

  lemma {:induction false} GroundedAppend(a: seq<Bytes>, b: seq<Bytes>)
    requires |b| > 0 && AllPlain(b)
    ensures Grounded(a + b) == Grounded(a) + b
    decreases |a|
  {
    if |a| > 0 && a[0] == UP {
      assert (a + b)[1..] == a[1..] + b;
      GroundedAppend(a[1..], b);
    } else if |a| == 0 {
      assert a + b == b;
      assert Plain(b[0]);
    }
  }

  /** Wherever a torrent is written, its file's path is its tail or ends in it at a separator. */
  lemma LandedEndsInTail(directory: Bytes, inTorrent: Bytes)
    requires IsTail(inTorrent) && directory != []
    ensures var landed, tail := Landed(directory, inTorrent), Normal(inTorrent);
            landed == tail || EndsWith(landed, [SLASH] + tail)
  {
    hide Resolved, Names, Written, Grounded, Normal, IsTail;
    LandedNames(directory, inTorrent);
    TailIs(inTorrent);
    var above, below := Left(directory), Left(inTorrent);
    var landed := Landed(directory, inTorrent);
    NormalIs(directory + [SLASH] + inTorrent);
    if |above| == 0 {
      assert above + below == below;
    } else {
      WrittenOfTwo(above, below);
      assert Written(above + below) == Written(above) + ([SLASH] + Written(below));
    }
  }

  lemma TrailingSlash(s: Bytes)
    ensures (s == [] || s[|s| - 1] == SLASH) ==> Names(s)[|Names(s)| - 1] == []
  {
    if s != [] && s[|s| - 1] == SLASH {
      assert s == s[..|s| - 1] + [SLASH] + [];
      NamesOfTwo(s[..|s| - 1], []);
    }
  }

  /** A tail cut off the names of a path in normal form leaves the directory above it. */
  lemma CutAtSeparator(below: Bytes, ws: seq<Bytes>, inTorrent: Bytes) returns (directory: Bytes)
    requires IsResolved(ws) && below == Written(ws) && Names(below) == ws
    requires IsTail(inTorrent) && EndsWith(below, [SLASH] + Normal(inTorrent))
    ensures below == directory + [SLASH] + Normal(inTorrent)
    ensures directory != [] && directory[0] == below[0] && directory[|directory| - 1] != SLASH
    ensures IsResolved(Names(directory)) && Names(directory) + Left(inTorrent) == ws
  {
    hide Resolved, Names, Written, Normal, IsTail;
    TailIs(inTorrent);
    var tail := Normal(inTorrent);
    var n := |below| - |tail| - 1;
    directory := below[..n];
    assert below[n..] == [SLASH] + tail;
    assert below == directory + [SLASH] + tail;
    NamesOfTwo(directory, tail);
    var above := Names(directory);
    assert ws == above + Names(tail);
    assert forall i :: 0 <= i < |above| ==> above[i] == ws[i];
    assert above[|above| - 1] != [];
    TrailingSlash(directory);
  }

  lemma DirectoryOfCut(whole: Bytes, directory: Bytes, tail: Bytes)
    requires whole == directory + [SLASH] + tail && directory != [] && directory[|directory| - 1] != SLASH
    ensures Directory(whole, tail) == directory
  {
    assert whole[|whole| - |tail|..] == tail;
    assert whole[..|whole| - |tail|] == directory + [SLASH];
    assert (directory + [SLASH])[..|directory|] == directory;
    assert Trimmed(directory + [SLASH]) == directory;
  }

  /** A path that ends in the tail at a separator, with something above it, is put back. */
  lemma CutIsRestored(announced: Bytes, inTorrent: Bytes)
    requires NamesFile(announced) && IsTail(inTorrent)
    requires var whole, tail := Normal(announced), Normal(inTorrent);
      EndsWith(whole, [SLASH] + tail) && whole != [SLASH] + tail
    ensures Landed(Directory(Normal(announced), Normal(inTorrent)), inTorrent) == Normal(announced)
  {
    hide Resolved, Names, Written, Grounded, Normal, IsTail, Trimmed;
    NormalLeaves(announced);
    TailIs(inTorrent);
    var whole, tail, ws := Normal(announced), Normal(inTorrent), Left(announced);
    var below := Written(ws);
    if Rooted(announced) {
      assert whole[1..] == below;
      assert below[|below| - |[SLASH] + tail|..] == whole[|whole| - |[SLASH] + tail|..];
    } else {
      assert whole == below;
    }
    var cut := CutAtSeparator(below, ws, inTorrent);
    var directory := (if Rooted(announced) then [SLASH] else []) + cut;
    assert whole == directory + [SLASH] + tail;
    DirectoryOfCut(whole, directory, tail);
    ResolvedStays(Names(cut));
    if Rooted(announced) {
      AboveIsPlain(Names(cut), Left(inTorrent));
      NamesBelowRoot(cut);
      GroundedStays(Names(cut));
    } else {
      assert directory == cut;
    }
    LandedNames(directory, inTorrent);
    NormalIs(directory + [SLASH] + inTorrent);
    NormalIs(announced);
  }

  lemma AboveIsPlain(a: seq<Bytes>, b: seq<Bytes>)
    requires AllPlain(a + b)
    ensures AllPlain(a)
  {
    assert forall i :: 0 <= i < |a| ==> a[i] == (a + b)[i];
  }

  /** The file lands where the sender has it exactly if what the torrent still knows is the whole of
      the announced path, or a tail of it that starts at a separator with something above it: of a
      file right below the root the root itself is trimmed away. */
  lemma SavePathLands(announced: Bytes, inTorrent: Bytes)
    requires NamesFile(announced) && IsTail(inTorrent)
    ensures var whole, tail := Normal(announced), Normal(inTorrent);
            Landed(Directory(whole, tail), inTorrent) == whole
            <==> tail == whole || (EndsWith(whole, [SLASH] + tail) && whole != [SLASH] + tail)
  {
    hide Resolved, Names, Written, Normal, IsTail, Trimmed;
    var whole, tail := Normal(announced), Normal(inTorrent);
    TailIs(inTorrent);
    LandedEndsInTail(Directory(whole, tail), inTorrent);
    if EndsWith(whole, [SLASH] + tail) && whole != [SLASH] + tail {
      CutIsRestored(announced, inTorrent);
    } else if tail == whole {
      WholeIsAtRoot(whole);
      LandedAtRoot(inTorrent);
    } else if whole == [SLASH] + tail {
      RootIsTrimmed(tail);
      LandedAtRoot(inTorrent);
    }
  }

  lemma WholeIsAtRoot(whole: Bytes)
    ensures Directory(whole, whole) == DOT
  {
    assert whole[..0] == [] && whole[0..] == whole;
  }

  lemma RootIsTrimmed(tail: Bytes)
    ensures Directory([SLASH] + tail, tail) == DOT
  {
    assert ([SLASH] + tail)[1..] == tail && ([SLASH] + tail)[..1] == [SLASH];
    assert [SLASH][..0] == [];
    assert Trimmed([SLASH]) == [];
  }

  lemma LandedAtRoot(inTorrent: Bytes)
    requires IsTail(inTorrent)
    ensures Landed(DOT, inTorrent) == Normal(inTorrent)
  {
    LandedNames(DOT, inTorrent);
    NamesOfName(DOT);
    assert Resolved([DOT]) == [];
    assert [] + Left(inTorrent) == Left(inTorrent);
    NormalIs(DOT + [SLASH] + inTorrent);
    NormalIs(inTorrent);
  }

  // ---- And `join` gives it back ----

  lemma {:induction false} RelativeToOwn(root: seq<Bytes>, ns: seq<Bytes>)
    ensures Relative(root + ns, root) == ns
    decreases |root|
  {
    if |root| == 0 {
      assert root + ns == ns;
    } else {
      assert (root + ns)[1..] == root[1..] + ns;
      RelativeToOwn(root[1..], ns);
    }
  }

  /** Below the sync root `join` gives back where the file landed. */
  lemma JoinedIsLanded(root: seq<Bytes>, directory: Bytes, inTorrent: Bytes)
    requires IsTail(inTorrent) && directory != [] && !Rooted(directory)
    ensures Joined(root, directory, inTorrent) == Landed(directory, inTorrent)
  {
    hide Resolved, Names, Written, Normal, IsTail, NamesFile;
    RelativeToOwn(root, Names(directory));
    NamesOfTwo(directory, inTorrent);
    LandedNames(directory, inTorrent);
    NormalIs(directory + [SLASH] + inTorrent);
  }

  lemma {:induction false} RelativeHasNoSlash(ns: seq<Bytes>, root: seq<Bytes>)
    requires forall i :: 0 <= i < |ns| ==> SLASH !in ns[i]
    ensures forall i :: 0 <= i < |Relative(ns, root)| ==> SLASH !in Relative(ns, root)[i]
    decreases |root|
  {
    if |ns| > 0 && |root| > 0 && ns[0] == root[0] {
      RelativeHasNoSlash(ns[1..], root[1..]);
    }
  }

  /** It never gives back a rooted path, wherever the file landed. */
  lemma JoinedIsNeverRooted(root: seq<Bytes>, directory: Bytes, inTorrent: Bytes)
    requires IsTail(inTorrent) && forall i :: 0 <= i < |root| ==> SLASH !in root[i]
    ensures !Rooted(Joined(root, directory, inTorrent))
  {
    hide Names, Written, Relative, Resolved;
    NamesHaveNoSlash(directory);
    NamesHaveNoSlash(inTorrent);
    var complete := Complete(root, directory);
    RelativeHasNoSlash(complete, root);
    var above := Relative(complete, root);
    TailIs(inTorrent);
    ResolvedBelow(above, Names(inTorrent));
    ResolvedIsResolved(above + Names(inTorrent));
    FirstName(Resolved(above + Names(inTorrent)));
  }

  lemma DirectoryIsPrefix(whole: Bytes, tail: Bytes)
    requires !Rooted(whole)
    ensures Directory(whole, tail) != [] && !Rooted(Directory(whole, tail))
  {
  }

  lemma NormalKeepsRoot(s: Bytes)
    requires NamesFile(s)
    ensures Rooted(Normal(s)) == Rooted(s)
  {
    NormalLeaves(s);
    assert [] + Written(Left(s)) == Written(Left(s));
  }

  /** `join` of the save path and the tail gives back the announced path, as the daemon knows its torrents
      by, exactly if that path is below the sync root and the tail is all of it or starts at a
      separator. A rooted one it never gives back, not even where the file lands at its place. */
  lemma SavePathRestores(root: seq<Bytes>, announced: Bytes, inTorrent: Bytes)
    requires NamesFile(announced) && IsTail(inTorrent)
    requires forall i :: 0 <= i < |root| ==> SLASH !in root[i]
    ensures var whole, tail := Normal(announced), Normal(inTorrent);
            Joined(root, Directory(whole, tail), inTorrent) == whole
            <==> !Rooted(announced) && (tail == whole || EndsWith(whole, [SLASH] + tail))
  {
    hide Joined, Landed, Normal, NamesFile, IsTail, Directory;
    var whole, tail := Normal(announced), Normal(inTorrent);
    NormalKeepsRoot(announced);
    JoinedIsNeverRooted(root, Directory(whole, tail), inTorrent);
    if !Rooted(announced) {
      DirectoryIsPrefix(whole, tail);
      JoinedIsLanded(root, Directory(whole, tail), inTorrent);
      SavePathLands(announced, inTorrent);
    }
  }

  // ---- Where paths lead ----

  /** One name further on, from a place below the root of the file system. */
  function Stride(at: seq<Bytes>, name: Bytes): (next: seq<Bytes>) {
    if name == [] || name == [46] then at
    else if name == [46, 46] then if |at| > 0 then at[..|at| - 1] else at
    else at + [name]
  }

  function Walk(at: seq<Bytes>, ns: seq<Bytes>): (place: seq<Bytes>)
    decreases |ns|
  {
    if |ns| == 0 then at else Walk(Stride(at, ns[0]), ns[1..])
  }

  /** The place a path names, seen from `at`. */
  function Where(at: seq<Bytes>, s: Bytes): (place: seq<Bytes>) {
    Walk(if Rooted(s) then [] else at, Names(s))
  }

  lemma {:induction false} WalkOn(at: seq<Bytes>, a: seq<Bytes>, b: seq<Bytes>)
    ensures Walk(at, a + b) == Walk(Walk(at, a), b)
    decreases |a|
  {
    if |a| == 0 {
      assert a + b == b;
    } else {
      assert (a + b)[1..] == a[1..] + b;
      WalkOn(Stride(at, a[0]), a[1..], b);
    }
  }

  lemma WalkLast(at: seq<Bytes>, ns: seq<Bytes>)
    requires |ns| > 0
    ensures Walk(at, ns) == Stride(Walk(at, ns[..|ns| - 1]), ns[|ns| - 1])
  {
    var last := [ns[|ns| - 1]];
    assert ns == ns[..|ns| - 1] + last;
    WalkOn(at, ns[..|ns| - 1], last);
    assert last[1..] == [];
  }

  lemma {:induction false} ResolvedAreNames(ns: seq<Bytes>)
    ensures forall i :: 0 <= i < |Resolved(ns)| ==> Resolved(ns)[i] != [] && Resolved(ns)[i] != DOT
  {
    if |ns| > 0 {
      ResolvedAreNames(ns[..|ns| - 1]);
    }
  }

  lemma {:induction false} ResolvedLeadsThere(at: seq<Bytes>, ns: seq<Bytes>)
    ensures Walk(at, Resolved(ns)) == Walk(at, ns)
  {
    if |ns| > 0 {
      var most, last := ns[..|ns| - 1], ns[|ns| - 1];
      var before := Resolved(most);
      ResolvedLeadsThere(at, most);
      WalkLast(at, ns);
      SteppedLeadsThere(at, before, last, most);
    }
  }

  lemma SteppedLeadsThere(at: seq<Bytes>, before: seq<Bytes>, last: Bytes, most: seq<Bytes>)
    requires before == Resolved(most)
    ensures Walk(at, Stepped(before, last)) == Stride(Walk(at, before), last)
  {
    ResolvedAreNames(most);
    if last != [] && last != DOT {
      if last == UP && |before| > 0 && before[|before| - 1] != UP {
        WalkLast(at, before);
      } else {
        WalkLast(at, before + [last]);
        assert (before + [last])[..|before|] == before;
      }
    }
  }

  lemma {:induction false} GroundedLeadsThere(ns: seq<Bytes>)
    ensures Walk([], Grounded(ns)) == Walk([], ns)
    decreases |ns|
  {
    if |ns| > 0 && ns[0] == UP {
      GroundedLeadsThere(ns[1..]);
    }
  }

  lemma LeftLeadsThere(at: seq<Bytes>, s: Bytes)
    ensures Walk(if Rooted(s) then [] else at, Left(s)) == Where(at, s)
  {
    ResolvedLeadsThere(if Rooted(s) then [] else at, Names(s));
    if Rooted(s) {
      GroundedLeadsThere(Resolved(Names(s)));
    }
  }

  lemma {:induction false} GroundedIsResolved(ns: seq<Bytes>)
    requires IsResolved(ns)
    ensures IsResolved(Grounded(ns))
    decreases |ns|
  {
    if |ns| > 0 && ns[0] == UP {
      GroundedIsResolved(ns[1..]);
    }
  }

  lemma LeftIsResolved(s: Bytes)
    ensures IsResolved(Left(s)) && forall i :: 0 <= i < |Left(s)| ==> SLASH !in Left(s)[i]
  {
    NamesHaveNoSlash(s);
    ResolvedIsResolved(Names(s));
    GroundedIsResolved(Resolved(Names(s)));
    forall i | 0 <= i < |Left(s)|
      ensures SLASH !in Left(s)[i]
    {
      assert Left(s)[i] == UP || Plain(Left(s)[i]);
    }
  }

  /** What a body of names leads to, with the root in front or a separator behind. */
  lemma BodyLeadsThere(at: seq<Bytes>, rooted: bool, ns: seq<Bytes>)
    requires |ns| > 0 && IsResolved(ns) && forall i :: 0 <= i < |ns| ==> SLASH !in ns[i]
    ensures var body := (if rooted then [SLASH] else []) + Written(ns);
            && Rooted(body) == rooted && body != []
            && Where(at, body) == Walk(if rooted then [] else at, ns)
            && Rooted(body + [SLASH]) == rooted && Where(at, body + [SLASH]) == Where(at, body)
  {
    hide IsResolved;
    NamesOfWritten(ns);
    FirstName(ns);
    var body := (if rooted then [SLASH] else []) + Written(ns);
    var start := if rooted then [] else at;
    if rooted {
      assert body == [] + [SLASH] + Written(ns);
      NamesOfTwo([], Written(ns));
      assert Names(body) == [[]] + ns;
      assert ([[]] + ns)[1..] == ns;
    } else {
      assert body == Written(ns);
    }
    assert body + [SLASH] == body + [SLASH] + [];
    NamesOfTwo(body, []);
    WalkOn(start, Names(body), [[]]);
    var empty: Bytes := [];
    assert [empty][1..] == [];
  }

  /** Normal form leads where the path does, from wherever it is looked at. */
  lemma NormalLeadsThere(at: seq<Bytes>, s: Bytes)
    ensures Rooted(Normal(s)) == Rooted(s) && Where(at, Normal(s)) == Where(at, s)
  {
    hide Names, Written, Grounded, IsResolved, Left;
    if s != [] {
      LeftIsResolved(s);
      LeftLeadsThere(at, s);
      if |Left(s)| > 0 {
        BodyLeadsThere(at, Rooted(s), Left(s));
      } else {
        EmptyLeadsThere(at);
        assert Left(s) == [];
        assert Normal(s) == if Rooted(s) then [SLASH] else DOT;
      }
    }
  }

  lemma EmptyLeadsThere(at: seq<Bytes>)
    ensures Written([]) == [] && Where(at, DOT) == at && Where(at, [SLASH]) == []
    ensures !Rooted(DOT) && Rooted([SLASH])
  {
    NamesOfName(DOT);
    WalkLast(at, [DOT]);
    assert [DOT][..0] == [];
    assert [SLASH] == [] + [SLASH] + [];
    NamesOfTwo([], []);
    var empty: Bytes := [];
    assert Names([]) == [empty] && [empty] + [empty] == [empty, empty];
    WalkLast([], [empty, empty]);
    WalkLast([], [empty]);
    assert [empty, empty][..1] == [empty] && [empty][..0] == [];
  }

  /** It ends in a separator exactly if it is the root, or comes to a name without being written as one. */
  lemma NormalEndsInSeparator(s: Bytes)
    requires s != []
    ensures Normal(s) != []
    ensures var whole, left := Normal(s), Left(s);
            whole[|whole| - 1] == SLASH <==>
            if |left| == 0 then Rooted(s)
            else left[|left| - 1] != UP && Names(s)[|Names(s)| - 1] in {[], [46], [46, 46]}
  {
    hide Written, Grounded, Resolved, Names, IsResolved;
    LeftIsResolved(s);
    NamesHaveNoSlash(s);
    if |Left(s)| > 0 {
      LastByte(Left(s));
    } else {
      EmptyLeadsThere([]);
    }
  }

  lemma {:induction false} LastByte(ns: seq<Bytes>)
    requires |ns| > 0 && IsResolved(ns)
    ensures Written(ns) != [] && Written(ns)[|Written(ns)| - 1] != SLASH
  {
    var last := ns[|ns| - 1];
    assert last == UP || Plain(last);
    assert last != [] && last[|last| - 1] in last;
    if |ns| > 1 {
      LastByte(ns[1..]);
    }
  }

  /** Where the file lands is the tail, seen from its directory. */
  lemma LandedLeadsThere(at: seq<Bytes>, directory: Bytes, inTorrent: Bytes)
    requires directory != []
    ensures Where(at, Landed(directory, inTorrent)) == Walk(Where(at, directory), Names(inTorrent))
  {
    var whole := directory + [SLASH] + inTorrent;
    NormalLeadsThere(at, whole);
    NamesOfTwo(directory, inTorrent);
    WalkOn(if Rooted(directory) then [] else at, Names(directory), Names(inTorrent));
  }

  lemma {:induction false} StepsUp(at: seq<Bytes>, k: nat, ns: seq<Bytes>)
    requires k <= |at|
    ensures Walk(at, seq(k, _ => UP) + ns) == Walk(at[..|at| - k], ns)
    decreases k
  {
    var ups := seq(k, _ => UP);
    if k == 0 {
      assert ups + ns == ns && at[..|at|] == at;
    } else {
      assert (ups + ns)[1..] == seq(k - 1, _ => UP) + ns;
      StepsUp(at[..|at| - 1], k - 1, ns);
      assert at[..|at| - 1][..|at| - k] == at[..|at| - k];
    }
  }

  lemma {:induction false} RelativeLeadsThere(above: seq<Bytes>, root: seq<Bytes>, ns: seq<Bytes>)
    requires AllPlain(root)
    ensures Walk(above + root, Relative(ns, root)) == Walk(above, ns)
    decreases |root|
  {
    if |ns| > 0 && |root| > 0 && ns[0] == root[0] {
      assert Plain(root[0]);
      assert above + root == (above + [root[0]]) + root[1..];
      RelativeLeadsThere(above + [root[0]], root[1..], ns[1..]);
    } else {
      StepsUp(above + root, |root|, ns);
      assert (above + root)[..|above|] == above;
    }
  }

  lemma {:induction false} PlainLeadDown(at: seq<Bytes>, ns: seq<Bytes>)
    requires AllPlain(ns)
    ensures Walk(at, ns) == at + ns
    decreases |ns|
  {
    if |ns| > 0 {
      assert Plain(ns[0]);
      PlainLeadDown(at + [ns[0]], ns[1..]);
      assert at + ns == (at + [ns[0]]) + ns[1..];
    } else {
      assert at + ns == at;
    }
  }

  lemma CompleteLeadsThere(root: seq<Bytes>, directory: Bytes)
    requires AllPlain(root)
    ensures Walk([], Complete(root, directory)) == Where(root, directory)
  {
    if Rooted(directory) {
      assert Names(directory) == [[]] + Names(directory)[1..];
    } else {
      WalkOn([], root, Names(directory));
      PlainLeadDown([], root);
      assert [] + root == root;
    }
  }

  /** And `join`, looked at from the sync root, names that very place. */
  lemma JoinedLeadsThere(root: seq<Bytes>, directory: Bytes, inTorrent: Bytes)
    requires AllPlain(root) && IsTail(inTorrent)
    ensures Where(root, Joined(root, directory, inTorrent)) == Walk(Where(root, directory), Names(inTorrent))
  {
    hide Names, Written, Resolved, Relative, Complete, IsTail, Plain;
    var rel := Relative(Complete(root, directory), root);
    JoinedParts(root, directory, inTorrent);
    var left := Resolved(rel + Names(inTorrent));
    ResolvedLeadsThere(root, rel + Names(inTorrent));
    WalkOn(root, rel, Names(inTorrent));
    RelativeLeadsThere([], root, Complete(root, directory));
    assert [] + root == root;
    CompleteLeadsThere(root, directory);
    BodyLeadsThere(root, false, left);
    assert [] + Written(left) == Written(left);
  }

  lemma JoinedParts(root: seq<Bytes>, directory: Bytes, inTorrent: Bytes)
    requires AllPlain(root) && IsTail(inTorrent)
    ensures var left := Resolved(Relative(Complete(root, directory), root) + Names(inTorrent));
            |left| > 0 && IsResolved(left) && forall i :: 0 <= i < |left| ==> SLASH !in left[i]
  {
    hide Names, Written, Relative, Resolved, IsTail;
    NamesHaveNoSlash(directory);
    NamesHaveNoSlash(inTorrent);
    assert forall i :: 0 <= i < |root| ==> Plain(root[i]);
    var complete := Complete(root, directory);
    RelativeHasNoSlash(complete, root);
    var above := Relative(complete, root);
    TailIs(inTorrent);
    ResolvedBelow(above, Names(inTorrent));
    ResolvedIsResolved(above + Names(inTorrent));
    var left := Resolved(above + Names(inTorrent));
    forall i | 0 <= i < |left|
      ensures SLASH !in left[i]
    {
      assert left[i] == UP || Plain(left[i]);
    }
  }
}
