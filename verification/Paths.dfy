/** Byte strings, paths and the order a `std::map` keyed by path walks them in. */
module Paths {
  type Byte = b: int | 0 <= b < 256
  type Bytes = seq<Byte>

  const NUL: Byte := 0
  const SLASH: Byte := 47

  /** A POSIX name excludes only NUL, so that is all a path is asked to exclude here. */
  type Path = p: Bytes | NUL !in p

  /** `std::filesystem::path` compares component by component. On paths in normal form that is
      the bytewise order in which the separator comes before every other byte. */
  function Rank(b: Byte): (rank: int) {
    if b == SLASH then -1 else b
  }

  predicate Less(a: Bytes, b: Bytes) {
    |b| > 0 &&
    (|a| == 0 || Rank(a[0]) < Rank(b[0]) || (a[0] == b[0] && Less(a[1..], b[1..])))
  }

  lemma {:induction false} LessIrreflexive(a: Bytes)
    ensures !Less(a, a)
  {
    if |a| > 0 {
      LessIrreflexive(a[1..]);
    }
  }

  lemma {:induction false} LessTransitive(a: Bytes, b: Bytes, c: Bytes)
    requires Less(a, b) && Less(b, c)
    ensures Less(a, c)
  {
    if |a| > 0 && a[0] == b[0] && b[0] == c[0] {
      LessTransitive(a[1..], b[1..], c[1..]);
    }
  }

  lemma {:induction false} LessTotal(a: Bytes, b: Bytes)
    ensures a == b || Less(a, b) || Less(b, a)
  {
    if |a| > 0 && |b| > 0 && a[0] == b[0] {
      LessTotal(a[1..], b[1..]);
      assert a == [a[0]] + a[1..] && b == [b[0]] + b[1..];
    }
  }

  // ---- The order is that of the names ----

  /** The names between the separators, the empty ones among them. */
  function Names(s: Bytes): (ns: seq<Bytes>)
    ensures |ns| > 0
  {
    if s == [] then [[]]
    else
      var rest := Names(s[1..]);
      if s[0] == SLASH then [[]] + rest else [[s[0]] + rest[0]] + rest[1..]
  }

  predicate BytesLess(a: Bytes, b: Bytes) {
    |b| > 0 && (|a| == 0 || a[0] < b[0] || (a[0] == b[0] && BytesLess(a[1..], b[1..])))
  }

  predicate NamesLess(a: seq<Bytes>, b: seq<Bytes>) {
    |b| > 0 && (|a| == 0 || BytesLess(a[0], b[0]) || (a[0] == b[0] && NamesLess(a[1..], b[1..])))
  }

  /** Paths are ordered name by name, and names byte by byte. */
  lemma {:induction false} OrderIsByName(a: Bytes, b: Bytes)
    ensures Less(a, b) <==> NamesLess(Names(a), Names(b))
  {
    if |a| > 0 && |b| > 0 && a[0] == b[0] {
      OrderIsByName(a[1..], b[1..]);
      var m, n := Names(a[1..]), Names(b[1..]);
      if a[0] == SLASH {
        assert Names(a)[1..] == m && Names(b)[1..] == n;
      } else {
        assert Names(a)[1..] == m[1..] && Names(b)[1..] == n[1..];
        assert Names(a)[0][1..] == m[0] && Names(b)[0][1..] == n[0];
      }
    }
  }

  ghost predicate IsLeast(m: Path, s: set<Path>) {
    m in s && forall x :: x in s ==> x == m || Less(m, x)
  }

  lemma LeastExists(s: set<Path>)
    requires s != {}
    ensures exists m: Path :: IsLeast(m, s)
  {
    var x: Path :| x in s;
    if s == {x} {
      assert IsLeast(x, s);
    } else {
      var rest := s - {x};
      LeastExists(rest);
      var m: Path :| IsLeast(m, rest);
      LessTotal(x, m);
      var least := if Less(x, m) then x else m;
      forall y | y in s
        ensures y == least || Less(least, y)
      {
        if y != x && y != m && Less(x, m) {
          LessTransitive(x, m, y);
        }
      }
      assert IsLeast(least, s);
    }
  }

  lemma LeastUnique(s: set<Path>)
    ensures forall a, b :: a in s && b in s && Less(a, b) ==> !Less(b, a)
  {
    forall a, b | a in s && b in s && Less(a, b) && Less(b, a)
      ensures false
    {
      LessTransitive(a, b, a);
      LessIrreflexive(a);
    }
  }

  function Least(s: set<Path>): (m: Path)
    requires s != {}
    ensures IsLeast(m, s)
  {
    LeastExists(s);
    LeastUnique(s);
    var m: Path :| m in s && forall x :: x in s ==> x == m || Less(m, x);
    m
  }

  ghost predicate Ascending(ks: seq<Path>) {
    forall i, j :: 0 <= i < j < |ks| ==> Less(ks[i], ks[j])
  }

  /** The order in which a range-for visits a `std::map` with these keys. */
  function Sorted(s: set<Path>): (ks: seq<Path>)
    ensures Ascending(ks)
    ensures |ks| == |s|
    ensures forall p :: p in ks <==> p in s
    decreases |s|
  {
    if s == {} then [] else
      var m := Least(s);
      var rest := Sorted(s - {m});
      assert forall i :: 0 <= i < |rest| ==> rest[i] in s - {m};
      [m] + rest
  }

  lemma AscendingDistinct(ks: seq<Path>, i: nat, j: nat)
    requires Ascending(ks) && i < |ks| && j < |ks| && ks[i] == ks[j]
    ensures i == j
  {
    LessIrreflexive(ks[i]);
  }

  lemma HasMember(ks: seq<Path>)
    requires ks != []
    ensures exists p :: p in ks
  {
    assert ks[0] in ks;
  }

  /** There is one ascending listing of a set, so any loop that visits the keys in order visits
      them in `Sorted` order. */
  lemma {:induction false} AscendingUnique(a: seq<Path>, b: seq<Path>)
    requires Ascending(a) && Ascending(b)
    requires forall p :: p in a <==> p in b
    ensures a == b
  {
    if a == [] && b != [] {
      HasMember(b);
    } else if a != [] && b == [] {
      HasMember(a);
    } else if a != [] {
      assert a[0] in b && b[0] in a;
      if a[0] != b[0] {
        var i :| 0 <= i < |a| && a[i] == b[0];
        var j :| 0 <= j < |b| && b[j] == a[0];
        LessTransitive(a[0], b[0], a[0]);
        LessIrreflexive(a[0]);
      }
      forall p
        ensures p in a[1..] <==> p in b[1..]
      {
        LessIrreflexive(a[0]);
        if p in a[1..] {
          var i :| 0 <= i < |a[1..]| && a[1..][i] == p;
          assert Less(a[0], a[i + 1]);
          assert p in b;
        }
        if p in b[1..] {
          var i :| 0 <= i < |b[1..]| && b[1..][i] == p;
          assert Less(b[0], b[i + 1]);
          assert p in a;
        }
      }
      AscendingUnique(a[1..], b[1..]);
      assert a == [a[0]] + a[1..] && b == [b[0]] + b[1..];
    }
  }

  /** The keys of an ascending listing up to the `i`-th are those not after it. */
  lemma AscendingUpTo(ks: seq<Path>, i: nat, q: Path)
    requires Ascending(ks) && i < |ks| && q in ks
    ensures q in ks[..i + 1] <==> q == ks[i] || Less(q, ks[i])
  {
    var j :| 0 <= j < |ks| && ks[j] == q;
    if j <= i {
      assert ks[..i + 1][j] == q;
    } else {
      LessIrreflexive(q);
      if Less(q, ks[i]) {
        LessTransitive(q, ks[i], q);
      }
    }
  }

  // ---- Loops over a sorted map ----

  /** The keys a loop over `ks` has visited before its `i`-th turn. */
  ghost function Visited(ks: seq<Path>, i: nat): (visited: set<Path>)
    requires i <= |ks|
  {
    set p | p in ks[..i]
  }

  lemma VisitNext(ks: seq<Path>, i: nat)
    requires i < |ks|
    ensures Visited(ks, i + 1) == Visited(ks, i) + {ks[i]}
  {
    assert ks[..i + 1] == ks[..i] + [ks[i]];
  }

  lemma VisitedAll(s: set<Path>)
    ensures Visited(Sorted(s), |s|) == s
  {
    assert Sorted(s)[..|s|] == Sorted(s);
  }

  lemma VisitInOrder(ks: seq<Path>, i: nat)
    requires Ascending(ks) && i < |ks|
    ensures forall p :: p in Visited(ks, i) ==> Less(p, ks[i])
  {
  }

  /** A key after all others comes last. */
  lemma SortedExtend(s: set<Path>, k: Path)
    requires forall p :: p in s ==> Less(p, k)
    ensures Sorted(s + {k}) == Sorted(s) + [k]
  {
    var ks := Sorted(s);
    forall i | 0 <= i < |ks|
      ensures Less(ks[i], k)
    {
      assert ks[i] in s;
    }
    AscendingUnique(Sorted(s + {k}), ks + [k]);
  }
}
