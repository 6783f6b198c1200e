/** Maps changed in place by a predicate. */
module Maps {
  ghost function Filtered<K, V>(m: map<K, V>, drop: (K, V) -> bool): (kept: map<K, V>) {
    map k | k in m && !drop(k, m[k]) :: m[k]
  }

  /** What is left once the predicate was asked about the keys outside `rest`. */
  ghost function Judged<K, V>(m: map<K, V>, drop: (K, V) -> bool, rest: set<K>): (kept: map<K, V>) {
    map k | k in m && (k in rest || !drop(k, m[k])) :: m[k]
  }

  lemma AskNext<K, V>(m: map<K, V>, drop: (K, V) -> bool, rest: set<K>, k: K)
    requires k in rest && k in m
    ensures Judged(m, drop, rest - {k}) ==
            if drop(k, m[k]) then Judged(m, drop, rest) - {k} else Judged(m, drop, rest)
  {
  }

  lemma AskEnds<K, V>(m: map<K, V>, drop: (K, V) -> bool)
    ensures Judged(m, drop, m.Keys) == m && Judged(m, drop, {}) == Filtered(m, drop)
  {
  }

  method EraseIf<K(==), V>(m: map<K, V>, drop: (K, V) -> bool) returns (kept: map<K, V>)
    ensures kept == Filtered(m, drop)
  {
    hide Judged, Filtered;
    kept := m;
    var rest := m.Keys;
    AskEnds(m, drop);
    while rest != {}
      invariant rest <= m.Keys && kept == Judged(m, drop, rest)
    {
      var k :| k in rest;
      AskNext(m, drop, rest, k);
      if drop(k, m[k]) {
        kept := kept - {k};
      }
      rest := rest - {k};
    }
  }
}
