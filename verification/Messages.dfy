/** The four verbs: how they are published, who receives them and what a receiver reads. */
module Messages {
  import opened Paths
  import opened Decimal
  import opened Framing

  datatype Result<T> = Ok(value: T) | Err(error: Error)
  datatype Error = WrongLength | WrongVerb

  const CREATE: Path := [99, 114, 101, 97, 116, 101]
  const REMOVE: Path := [114, 101, 109, 111, 118, 101]
  const STATE: Path := [115, 116, 97, 116, 101]
  const DIGEST: Path := [100, 105, 103, 101, 115, 116]

  /** The first part of a message for one node: the verb and the endpoint, a NUL closing each. */
  function Address(verb: Path, endpoint: Path): (part0: Bytes) {
    Entry(Frame(verb, endpoint))
  }

  /** Everything before the first NUL, or the whole of a part that has none. */
  function VerbOf(part0: Bytes): (verb: Path) {
    Field(part0, 0, Find(part0, 0))
  }

  lemma VerbOfPlain(verb: Path)
    ensures VerbOf(verb) == verb
  {
    forall k | 0 <= k < |verb|
      ensures verb[k] != NUL
    {
      assert verb[k] in verb;
    }
    FindFirst(verb, 0, |verb|);
  }

  lemma VerbOfAddress(verb: Path, endpoint: Path)
    ensures VerbOf(Address(verb, endpoint)) == verb
  {
    var f := Frame(verb, endpoint);
    var form := Entry(f);
    Separators(form, 0, f, |form|);
    assert form[0..|verb|] == verb;
  }

  lemma FirstNulAt(a: Path, x: Bytes, t: Bytes)
    requires a + [NUL] + x <= t
    ensures Find(t, 0) == |a|
  {
    forall k | 0 <= k < |a|
      ensures t[k] != NUL
    {
      assert t[k] == a[k] && a[k] in a;
    }
    FindFirst(t, 0, |a|);
  }

  lemma FirstNul(a: Path, b: Path, x: Bytes, y: Bytes)
    requires a + [NUL] + x <= b + [NUL] + y
    ensures a == b && x <= y
  {
    var s, t := a + [NUL] + x, b + [NUL] + y;
    FirstNulAt(a, x, t);
    FirstNulAt(b, y, t);
    assert a == s[..|a|] && b == t[..|b|];
    assert x == s[|a| + 1..] && y == t[|b| + 1..];
  }

  /** An address is a prefix of another only if the two are the same: without the NUL behind the
      endpoint a node on port 555 would receive what is meant for port 5555. */
  lemma AddressIsPrefixFree(v1: Path, e1: Path, v2: Path, e2: Path)
    ensures Address(v1, e1) <= Address(v2, e2) <==> v1 == v2 && e1 == e2
  {
    if Address(v1, e1) <= Address(v2, e2) {
      assert Address(v1, e1) == v1 + [NUL] + (e1 + [NUL]);
      assert Address(v2, e2) == v2 + [NUL] + (e2 + [NUL]);
      FirstNul(v1, v2, e1 + [NUL], e2 + [NUL]);
      assert e1 + [NUL] + [] == e1 + [NUL] && e2 + [NUL] + [] == e2 + [NUL];
      FirstNul(e1, e2, [], []);
    }
  }

  function Subscriptions(endpoint: Path): (prefixes: set<Bytes>) {
    {CREATE, REMOVE, STATE, Address(DIGEST, endpoint)}
  }

  /** A subscriber receives what begins with one of its subscriptions. */
  predicate Receives(endpoint: Path, part0: Bytes) {
    exists s :: s in Subscriptions(endpoint) && s <= part0
  }

  lemma DigestReachesItsTargetOnly(endpoint: Path, target: Path)
    ensures Receives(endpoint, Address(DIGEST, target)) <==> endpoint == target
  {
    AddressIsPrefixFree(DIGEST, endpoint, DIGEST, target);
    var part0 := Address(DIGEST, target);
    assert part0[0] == DIGEST[0];
    assert !(CREATE <= part0) && !(REMOVE <= part0) && !(STATE <= part0);
    assert Address(DIGEST, endpoint) in Subscriptions(endpoint);
  }

  lemma BroadcastReachesEveryone(endpoint: Path, verb: Path)
    requires verb in {CREATE, REMOVE, STATE}
    ensures Receives(endpoint, verb)
  {
    assert verb in Subscriptions(endpoint) && verb <= verb;
  }

  // ---- What a message says ----

  /** A published message. A digest is the only one addressed at one node. */
  datatype Message =
    | Create(torrent: Bytes, origin: Ticks, path: Path)
    | Remove(path: Path, deleted: Ticks)
    | State(root: Bytes, endpoint: Bytes)
    | Digest(target: Path, held: Bytes, graves: Bytes)

  function Parts(m: Message): (parts: seq<Bytes>) {
    match m
    case Create(torrent, origin, path) => [CREATE, torrent, Print(origin), path]
    case Remove(path, deleted) => [REMOVE, path, Print(deleted)]
    case State(root, endpoint) => [STATE, root, endpoint]
    case Digest(target, held, graves) => [Address(DIGEST, target), held, graves]
  }

  /** What a receiver makes of a message: a digest no longer says whom it was for. */
  datatype Request =
    | Added(torrent: Bytes, origin: Ticks, path: Bytes)
    | Removed(path: Bytes, deleted: Ticks)
    | Stated(root: Bytes, endpoint: Bytes)
    | Digested(held: Bytes, graves: Bytes)

  function PartsFor(part0: Bytes): (count: Result<nat>) {
    var verb := VerbOf(part0);
    if verb == CREATE then Ok(4)
    else if verb == REMOVE || verb == STATE || verb == DIGEST then Ok(3)
    else Err(WrongVerb)
  }

  /** How `act` judges the parts: the verb first, then the count that verb calls for. */
  function Accept(parts: seq<Bytes>): (request: Result<Request>) {
    if |parts| == 0 then Err(WrongLength) else
      var verb := VerbOf(parts[0]);
      match PartsFor(parts[0])
      case Err(e) => Err(e)
      case Ok(n) =>
        if |parts| != n then Err(WrongLength)
        else if verb == REMOVE then Ok(Removed(parts[1], FromTicks(parts[2])))
        else if verb == CREATE then Ok(Added(parts[1], FromTicks(parts[2]), parts[3]))
        else if verb == STATE then Ok(Stated(parts[1], parts[2]))
        else Ok(Digested(parts[1], parts[2]))
  }

  function Meaning(m: Message): (request: Request) {
    match m
    case Create(torrent, origin, path) => Added(torrent, origin, path)
    case Remove(path, deleted) => Removed(path, deleted)
    case State(root, endpoint) => Stated(root, endpoint)
    case Digest(_, held, graves) => Digested(held, graves)
  }

  lemma VerbOfParts(m: Message)
    ensures VerbOf(Parts(m)[0]) ==
            if m.Create? then CREATE else if m.Remove? then REMOVE
            else if m.State? then STATE else DIGEST
  {
    VerbOfPlain(CREATE);
    VerbOfPlain(REMOVE);
    VerbOfPlain(STATE);
    if m.Digest? {
      VerbOfAddress(DIGEST, m.target);
    }
  }

  /** Whatever is published is read as what it says, times included. */
  lemma PublishedIsRead(m: Message)
    ensures Accept(Parts(m)) == Ok(Meaning(m))
  {
    VerbOfParts(m);
    match m
    case Create(_, origin, _) => PrintThenRead(origin);
    case Remove(_, deleted) => PrintThenRead(deleted);
    case State(_, _) =>
    case Digest(_, _, _) =>
  }

  /** A message that lost parts on the way, whichever verb it has, is refused for its length. */
  lemma TruncatedIsRefused(m: Message, n: nat)
    requires n < |Parts(m)|
    ensures Accept(Parts(m)[..n]) == Err(WrongLength)
  {
    VerbOfParts(m);
    if n > 0 {
      assert Parts(m)[..n][0] == Parts(m)[0];
    }
  }

  // ---- Which messages are accepted ----

  /** ASCII. */
  function Spelling(word: string): (s: Bytes)
    requires forall i :: 0 <= i < |word| ==> 0 < word[i] as int < 128
  {
    seq(|word|, i requires 0 <= i < |word| => word[i] as int)
  }

  lemma VerbsAreSpelled()
    ensures CREATE == Spelling("create") && REMOVE == Spelling("remove")
    ensures STATE == Spelling("state") && DIGEST == Spelling("digest")
  {
  }

  lemma VerbBegins(part0: Bytes)
    ensures VerbOf(part0) == part0 || VerbOf(part0) + [0] <= part0
  {
    var i := Find(part0, 0);
    if i < |part0| {
      assert part0[..i + 1] == part0[0..i] + [0];
    } else {
      assert part0[0..i] == part0;
    }
  }

  /** A first part names a verb exactly if it is that verb, or begins with it and a NUL. */
  lemma VerbOfExactly(part0: Bytes, verb: Path)
    ensures VerbOf(part0) == verb <==> part0 == verb || verb + [0] <= part0
  {
    VerbBegins(part0);
    if verb + [0] <= part0 {
      assert forall k :: 0 <= k < |verb| ==> part0[k] == verb[k] && verb[k] in verb;
      assert part0[|verb|] == 0;
      FindFirst(part0, 0, |verb|);
      assert part0[0..|verb|] == verb;
    } else if part0 == verb {
      VerbOfPlain(verb);
    }
  }

  /** Whether a first part names this verb. */
  predicate Names(part0: Bytes, word: string)
    requires forall i :: 0 <= i < |word| ==> 0 < word[i] as int < 128
  {
    part0 == Spelling(word) || Spelling(word) + [0] <= part0
  }

  lemma NamesVerbs(part0: Bytes)
    ensures VerbOf(part0) == CREATE <==> Names(part0, "create")
    ensures VerbOf(part0) == REMOVE <==> Names(part0, "remove")
    ensures VerbOf(part0) == STATE <==> Names(part0, "state")
    ensures VerbOf(part0) == DIGEST <==> Names(part0, "digest")
  {
    VerbsAreSpelled();
    VerbOfExactly(part0, CREATE);
    VerbOfExactly(part0, REMOVE);
    VerbOfExactly(part0, STATE);
    VerbOfExactly(part0, DIGEST);
  }

  /** Exactly these are accepted, and as this: four parts of a create, three of a remove, a state or a
      digest. A verb nobody knows is refused as such, and any other count for its length. */
  lemma AcceptExactly(parts: seq<Bytes>)
    ensures Accept(parts) ==
            if |parts| == 0 then Err(WrongLength)
            else if Names(parts[0], "create") then
              if |parts| == 4 then Ok(Added(parts[1], FromTicks(parts[2]), parts[3])) else Err(WrongLength)
            else if Names(parts[0], "remove") then
              if |parts| == 3 then Ok(Removed(parts[1], FromTicks(parts[2]))) else Err(WrongLength)
            else if Names(parts[0], "state") then
              if |parts| == 3 then Ok(Stated(parts[1], parts[2])) else Err(WrongLength)
            else if Names(parts[0], "digest") then
              if |parts| == 3 then Ok(Digested(parts[1], parts[2])) else Err(WrongLength)
            else Err(WrongVerb)
  {
    hide Names, VerbOf;
    if |parts| > 0 {
      NamesVerbs(parts[0]);
    }
  }

  /** What a message is published as, spelled out. */
  lemma PublishedExactly(m: Message)
    ensures Parts(m) ==
            match m
            case Create(torrent, origin, path) => [Spelling("create"), torrent, Print(origin), path]
            case Remove(path, deleted) => [Spelling("remove"), path, Print(deleted)]
            case State(root, endpoint) => [Spelling("state"), root, endpoint]
            case Digest(target, held, graves) => [Spelling("digest") + [0] + target + [0], held, graves]
  {
    VerbsAreSpelled();
  }

  /** Which first parts a subscriber receives, whatever they are. */
  lemma ReceivesExactly(endpoint: Path, part0: Bytes)
    ensures Receives(endpoint, part0) <==>
            Spelling("create") <= part0 || Spelling("remove") <= part0 || Spelling("state") <= part0
            || Spelling("digest") + [0] + endpoint + [0] <= part0
  {
    VerbsAreSpelled();
    var addressed := Address(DIGEST, endpoint);
    assert addressed == Spelling("digest") + [0] + endpoint + [0];
    assert {CREATE, REMOVE, STATE, addressed} == Subscriptions(endpoint);
    assert CREATE in Subscriptions(endpoint) && REMOVE in Subscriptions(endpoint);
    assert STATE in Subscriptions(endpoint) && addressed in Subscriptions(endpoint);
  }
}
