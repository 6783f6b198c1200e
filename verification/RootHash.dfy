/** The root hash two nodes compare, over an uninterpreted digest function. */
module RootHash {
  import opened Paths
  import opened Decimal
  import opened Framing
  import opened Wire

  /** The digest function is whatever it is, but its width is fixed. */
  ghost predicate FixedWidth(sha: Bytes -> Bytes) {
    forall x :: |sha(x)| == 32
  }

  ghost function Root(sha: Bytes -> Bytes, held: TimeMap, graves: TimeMap): (root: Bytes) {
    sha(sha(Encoded(held)) + sha(Encoded(graves)))
  }

  method Hash(sha: Bytes -> Bytes, held: TimeMap, graves: TimeMap) returns (root: Bytes)
    ensures root == Root(sha, held, graves)
  {
    var files := Encode(held);
    var deleted := Encode(graves);
    root := sha(sha(files) + sha(deleted));
  }

  ghost predicate NoCollision(sha: Bytes -> Bytes, a: Bytes, b: Bytes) {
    sha(a) == sha(b) ==> a == b
  }

  /** The only collisions that matter between two nodes: their two forms pairwise, and the two
      pairs of digests hashed together. */
  ghost predicate NoCollisionBetween(sha: Bytes -> Bytes, held: TimeMap, graves: TimeMap,
                                     held': TimeMap, graves': TimeMap) {
    && NoCollision(sha, Encoded(held), Encoded(held'))
    && NoCollision(sha, Encoded(graves), Encoded(graves'))
    && NoCollision(sha, sha(Encoded(held)) + sha(Encoded(graves)),
                   sha(Encoded(held')) + sha(Encoded(graves')))
  }

  lemma SplitEqual(a: Bytes, b: Bytes, c: Bytes, d: Bytes)
    requires |a| == |c| && a + b == c + d
    ensures a == c && b == d
  {
    assert a == (a + b)[..|a|] && c == (c + d)[..|a|];
    assert b == (a + b)[|a|..] && d == (c + d)[|a|..];
  }

  /** Absent a collision among the inputs involved, equal root hashes are equal nodes. */
  lemma RootSeparates(sha: Bytes -> Bytes, held: TimeMap, graves: TimeMap,
                      held': TimeMap, graves': TimeMap)
    requires FixedWidth(sha) && NoCollisionBetween(sha, held, graves, held', graves')
    ensures Root(sha, held, graves) == Root(sha, held', graves')
            <==> held == held' && graves == graves'
  {
    if Root(sha, held, graves) == Root(sha, held', graves') {
      SplitEqual(sha(Encoded(held)), sha(Encoded(graves)),
                 sha(Encoded(held')), sha(Encoded(graves')));
      EncodingInjective(held, held');
      EncodingInjective(graves, graves');
    }
  }

  /** Two forms fed to one hasher agree exactly when the entries of both sets, files first, make
      the same list: nothing says where the files end. */
  lemma PlainConcatenation(held: TimeMap, graves: TimeMap, held': TimeMap, graves': TimeMap)
    ensures Encoded(held) + Encoded(graves) == Encoded(held') + Encoded(graves')
            <==> Listing(held) + Listing(graves) == Listing(held') + Listing(graves')
  {
    ConcatListed(held, graves);
    ConcatListed(held', graves');
    FormInjective(Listing(held) + Listing(graves), Listing(held') + Listing(graves'));
  }

  lemma ConcatListed(held: TimeMap, graves: TimeMap)
    ensures Encoded(held) + Encoded(graves) == Form(FramesOf(Listing(held) + Listing(graves)))
  {
    FormAppend(FramesOf(Listing(held)), FramesOf(Listing(graves)));
    FramesAppend(Listing(held), Listing(graves));
  }

  lemma FramesAppend(a: seq<Timed>, b: seq<Timed>)
    ensures FramesOf(a + b) == FramesOf(a) + FramesOf(b)
  {
  }

  lemma FormInjective(a: seq<Timed>, b: seq<Timed>)
    ensures Form(FramesOf(a)) == Form(FramesOf(b)) <==> a == b
  {
    if Form(FramesOf(a)) == Form(FramesOf(b)) {
      WholeForm(FramesOf(a));
      WholeForm(FramesOf(b));
      SameFrames(a, b);
    }
  }

  lemma WholeForm(fs: seq<Frame>)
    ensures Frames(Form(fs), 0) == fs
  {
    ReadForm(fs, |Form(fs)|);
    ClosedAll(fs);
    assert Form(fs)[..|Form(fs)|] == Form(fs) && fs[..|fs|] == fs;
  }

  lemma SameFrames(a: seq<Timed>, b: seq<Timed>)
    requires FramesOf(a) == FramesOf(b)
    ensures a == b
  {
    assert |a| == |FramesOf(a)| == |FramesOf(b)| == |b|;
    forall i | 0 <= i < |a|
      ensures a[i] == b[i]
    {
      assert FramesOf(a)[i] == FramesOf(b)[i];
      PrintThenRead(a[i].at);
      PrintThenRead(b[i].at);
    }
  }

  /** So a node holding files and a node remembering the very same paths deleted at the very same
      ticks would have agreed, while the two-level hash keeps them apart. */
  lemma HeldAndDeletedAreKeptApart(sha: Bytes -> Bytes, m: TimeMap)
    requires m != map[]
    requires FixedWidth(sha) && NoCollisionBetween(sha, m, map[], map[], m)
    ensures Encoded(m) + Encoded(map[]) == Encoded(map[]) + Encoded(m)
    ensures Root(sha, m, map[]) != Root(sha, map[], m)
  {
    PlainConcatenation(m, map[], map[], m);
    RootSeparates(sha, m, map[], map[], m);
  }

  /** The root, with a digest function that shows what it was given: files and deletions are each digested,
      in this order, and the two results together. */
  lemma RootShown(held: TimeMap, graves: TimeMap)
    ensures Root(x => [1] + x, held, graves) == [1] + (([1] + Encoded(held)) + ([1] + Encoded(graves)))
  {
  }
}
