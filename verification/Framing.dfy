/** NUL framing: two NUL-free fields an entry, each closed by the one byte a name cannot hold. */
module Framing {
  import opened Paths

  datatype Frame = Frame(key: Path, text: Path)

  function Entry(f: Frame): (form: Bytes) {
    f.key + [NUL] + f.text + [NUL]
  }

  /** The entries one after the other. */
  function Form(fs: seq<Frame>): (form: Bytes) {
    if fs == [] then [] else Entry(fs[0]) + Form(fs[1..])
  }

  /** `find('\0', at)`, with the length standing for `npos`. */
  function Find(s: Bytes, at: nat): (i: nat)
    requires at <= |s|
    ensures at <= i <= |s|
    ensures forall k :: at <= k < i ==> s[k] != NUL
    ensures i < |s| ==> s[i] == NUL
    decreases |s| - at
  {
    if at == |s| || s[at] == NUL then at else Find(s, at + 1)
  }

  function Field(form: Bytes, at: nat, end: nat): (p: Path)
    requires at <= end <= |form| && forall k :: at <= k < end ==> form[k] != NUL
  {
    form[at..end]
  }

  /** What the reader hands back from `at` on. An entry that does not close both of its fields
      ends the reading. */
  function Frames(form: Bytes, at: nat): (fs: seq<Frame>)
    requires at <= |form|
    decreases |form| - at
  {
    if at == |form| then [] else
      var keyEnd := Find(form, at);
      if keyEnd == |form| then [] else
        var textEnd := Find(form, keyEnd + 1);
        if textEnd == |form| then [] else
          [Frame(Field(form, at, keyEnd), Field(form, keyEnd + 1, textEnd))]
          + Frames(form, textEnd + 1)
  }

  // ---- Writing ----

  lemma Regroup(a: Bytes, b: Bytes, c: Bytes)
    ensures (a + b) + c == a + (b + c)
  {
  }

  lemma FormCons(f: Frame, fs: seq<Frame>)
    ensures Form([f] + fs) == Entry(f) + Form(fs)
  {
    assert ([f] + fs)[1..] == fs;
  }

  lemma {:induction false} FormAppend(a: seq<Frame>, b: seq<Frame>)
    ensures Form(a + b) == Form(a) + Form(b)
  {
    if a == [] {
      assert a + b == b;
    } else {
      calc {
        Form(a) + Form(b);
        { Regroup(Entry(a[0]), Form(a[1..]), Form(b)); }
        Entry(a[0]) + (Form(a[1..]) + Form(b));
        { FormAppend(a[1..], b); }
        Entry(a[0]) + Form(a[1..] + b);
        { FormCons(a[0], a[1..] + b); }
        Form([a[0]] + (a[1..] + b));
        { assert [a[0]] + (a[1..] + b) == a + b; }
        Form(a + b);
      }
    }
  }

  lemma FormExtend(fs: seq<Frame>, f: Frame)
    ensures Form(fs + [f]) == Form(fs) + Entry(f)
  {
    FormAppend(fs, [f]);
    assert Form([f]) == Entry(f) + Form([]);
  }

  // ---- Reading back what was written ----

  lemma {:induction false} FindFirst(s: Bytes, at: nat, end: nat)
    requires at <= end <= |s| && (end < |s| ==> s[end] == NUL)
    requires forall k :: at <= k < end ==> s[k] != NUL
    ensures Find(s, at) == end
    decreases end - at
  {
    if at < end {
      FindFirst(s, at + 1, end);
    }
  }

  lemma Layout(f: Frame, k: nat)
    ensures var entry, n := Entry(f), |f.key|;
            && |entry| == n + |f.text| + 2
            && (k < n ==> entry[k] == f.key[k] != NUL)
            && entry[n] == NUL
            && (n < k < |entry| - 1 ==> entry[k] == f.text[k - n - 1] != NUL)
            && entry[|entry| - 1] == NUL
  {
    if k < |f.key| {
      assert f.key[k] in f.key;
    } else if |f.key| < k < |Entry(f)| - 1 {
      assert f.text[k - |f.key| - 1] in f.text;
    }
  }

  /** `form` carries the first `len` bytes of the entry of `f` at `at`. */
  ghost predicate Carries(form: Bytes, at: nat, f: Frame, len: nat) {
    && len <= |Entry(f)| && at + len <= |form|
    && forall k :: at <= k < at + len ==> form[k] == Entry(f)[k - at]
  }

  /** Where the two separators of an entry stand, if it is there as far as they go. */
  lemma Separators(form: Bytes, at: nat, f: Frame, len: nat)
    requires Carries(form, at, f, len) && (len < |Entry(f)| ==> at + len == |form|)
    ensures Find(form, at) == if len <= |f.key| then |form| else at + |f.key|
    ensures |f.key| < len ==>
      Find(form, at + |f.key| + 1) == if len < |Entry(f)| then |form| else at + |Entry(f)| - 1
  {
    var n := |f.key|;
    forall k | at <= k < at + len
      ensures k < at + n ==> form[k] != NUL
      ensures k == at + n ==> form[k] == NUL
      ensures at + n < k < at + |Entry(f)| - 1 ==> form[k] != NUL
      ensures k == at + |Entry(f)| - 1 ==> form[k] == NUL
    {
      Layout(f, k - at);
    }
    FindFirst(form, at, if len <= n then |form| else at + n);
    if n < len {
      Layout(f, 0);
      FindFirst(form, at + n + 1, if len < |Entry(f)| then |form| else at + |Entry(f)| - 1);
    }
  }

  lemma Fields(form: Bytes, at: nat, f: Frame)
    requires Carries(form, at, f, |Entry(f)|)
    ensures |Entry(f)| == |f.key| + |f.text| + 2
    ensures form[at..at + |f.key|] == f.key
    ensures form[at + |f.key| + 1..at + |Entry(f)| - 1] == f.text
  {
    Layout(f, 0);
    forall k | 0 <= k < |Entry(f)|
      ensures k < |f.key| ==> form[at + k] == f.key[k]
      ensures |f.key| < k < |Entry(f)| - 1 ==> form[at + k] == f.text[k - |f.key| - 1]
    {
      Layout(f, k);
    }
  }

  lemma ReadOne(form: Bytes, at: nat, keyEnd: nat, textEnd: nat, f: Frame)
    requires at <= |form| && Find(form, at) == keyEnd < |form|
    requires Find(form, keyEnd + 1) == textEnd < |form|
    requires form[at..keyEnd] == f.key && form[keyEnd + 1..textEnd] == f.text
    ensures Frames(form, at) == [f] + Frames(form, textEnd + 1)
  {
  }

  lemma Located(form: Bytes, at: nat, f: Frame) returns (keyEnd: nat, textEnd: nat)
    requires Carries(form, at, f, |Entry(f)|)
    ensures at <= keyEnd < textEnd < |form| && textEnd + 1 == at + |Entry(f)|
    ensures Find(form, at) == keyEnd && Find(form, keyEnd + 1) == textEnd
    ensures form[at..keyEnd] == f.key && form[keyEnd + 1..textEnd] == f.text
  {
    Separators(form, at, f, |Entry(f)|);
    Fields(form, at, f);
    keyEnd, textEnd := at + |f.key|, at + |Entry(f)| - 1;
  }

  /** A whole entry at `at` is read and the reading goes on behind it. */
  lemma ReadEntry(form: Bytes, at: nat, f: Frame, next: nat)
    requires Carries(form, at, f, |Entry(f)|) && next == at + |Entry(f)|
    ensures Frames(form, at) == [f] + Frames(form, next)
  {
    hide *;
    var keyEnd, textEnd := Located(form, at, f);
    ReadOne(form, at, keyEnd, textEnd, f);
  }

  /** A part of an entry yields nothing. */
  lemma ReadTorn(form: Bytes, at: nat, f: Frame)
    requires at <= |form| < at + |Entry(f)| && Carries(form, at, f, |form| - at)
    ensures Frames(form, at) == []
  {
    Separators(form, at, f, |form| - at);
  }

  /** How many whole entries fit in the first `cut` bytes of the form. */
  function Closed(fs: seq<Frame>, cut: nat): (n: nat)
    ensures n <= |fs|
  {
    if fs == [] || cut < |Entry(fs[0])| then 0 else 1 + Closed(fs[1..], cut - |Entry(fs[0])|)
  }

  /** `form` carries, from `at` to its end, the beginning of the form of `fs`. */
  ghost predicate CarriesForm(form: Bytes, at: nat, fs: seq<Frame>) {
    && at <= |form| <= at + |Form(fs)|
    && form[at..] == Form(fs)[..|form| - at]
  }

  lemma CarriesHead(form: Bytes, at: nat, fs: seq<Frame>)
    requires |fs| > 0 && CarriesForm(form, at, fs)
    ensures var n := |Entry(fs[0])|;
            if |form| - at < n then Carries(form, at, fs[0], |form| - at)
            else Carries(form, at, fs[0], n) && CarriesForm(form, at + n, fs[1..])
  {
    var n := |Entry(fs[0])|;
    forall k | at <= k < |form|
      ensures k < at + n ==> form[k] == Entry(fs[0])[k - at]
      ensures k >= at + n ==> form[k] == Form(fs[1..])[k - at - n]
    {
      assert form[k] == form[at..][k - at];
    }
  }

  lemma TakeClosed(fs: seq<Frame>, n: nat)
    requires 0 < |fs| && n < |fs|
    ensures fs[..n + 1] == [fs[0]] + fs[1..][..n]
  {
  }

  lemma ReadStep(form: Bytes, at: nat, fs: seq<Frame>, next: nat)
    requires |fs| > 0 && CarriesForm(form, at, fs) && next == at + |Entry(fs[0])|
    ensures |form| < next ==> Frames(form, at) == []
    ensures next <= |form| ==>
      CarriesForm(form, next, fs[1..]) && Frames(form, at) == [fs[0]] + Frames(form, next)
  {
    CarriesHead(form, at, fs);
    if |form| < next {
      ReadTorn(form, at, fs[0]);
    } else {
      ReadEntry(form, at, fs[0], next);
    }
  }

  lemma {:induction false} ReadCut(form: Bytes, at: nat, fs: seq<Frame>)
    requires CarriesForm(form, at, fs)
    ensures Frames(form, at) == fs[..Closed(fs, |form| - at)]
    decreases |fs|
  {
    if |fs| > 0 {
      var next := at + |Entry(fs[0])|;
      ReadStep(form, at, fs, next);
      if next <= |form| {
        ReadCut(form, next, fs[1..]);
        TakeClosed(fs, Closed(fs[1..], |form| - next));
      }
    }
  }

  /** What a form cut short still says: exactly the entries that close inside the cut. */
  lemma ReadForm(fs: seq<Frame>, cut: nat)
    requires cut <= |Form(fs)|
    ensures Frames(Form(fs)[..cut], 0) == fs[..Closed(fs, cut)]
  {
    var form := Form(fs)[..cut];
    assert form[0..] == form;
    ReadCut(form, 0, fs);
  }

  // ---- Reading anything at all ----

  /** A tail that closes at most one field. */
  ghost predicate Torn(rest: Bytes) {
    forall i, j :: 0 <= i < j < |rest| ==> !(rest[i] == 0 && rest[j] == 0)
  }

  lemma EntryStandsThere(form: Bytes, at: nat, keyEnd: nat, textEnd: nat) returns (f: Frame)
    requires at <= |form| && keyEnd == Find(form, at) < |form| && textEnd == Find(form, keyEnd + 1) < |form|
    ensures Frames(form, at) == [f] + Frames(form, textEnd + 1)
    ensures form[at..] == Entry(f) + form[textEnd + 1..]
  {
    f := Frame(Field(form, at, keyEnd), Field(form, keyEnd + 1, textEnd));
    ReadOne(form, at, keyEnd, textEnd, f);
    assert form[keyEnd] == NUL && form[textEnd] == NUL;
    hide Find, Frames;
    CutTwice(form, at, keyEnd, textEnd);
  }

  lemma CutTwice(form: Bytes, at: nat, i: nat, j: nat)
    requires at <= i < j < |form|
    ensures form[at..] == form[at..i] + [form[i]] + form[i + 1..j] + [form[j]] + form[j + 1..]
  {
  }

  lemma TailStandsThere(form: Bytes, at: nat)
    requires at <= |form|
    requires var keyEnd := Find(form, at); keyEnd == |form| || Find(form, keyEnd + 1) == |form|
    ensures Frames(form, at) == [] && Torn(form[at..])
  {
    var keyEnd := Find(form, at);
    forall i, j | 0 <= i < j < |form[at..]|
      ensures !(form[at..][i] == 0 && form[at..][j] == 0)
    {
      assert form[at..][i] == form[at + i] && form[at..][j] == form[at + j];
    }
  }

  /** Whatever the bytes are, what is read are entries that stand there one after the other, each its
      path, a NUL, its text and a NUL, and what is left over closes at most one field. */
  lemma {:induction false} FramesStandThere(form: Bytes, at: nat) returns (rest: Bytes)
    requires at <= |form|
    ensures form[at..] == Form(Frames(form, at)) + rest && Torn(rest)
    decreases |form| - at
  {
    hide Frames, Form, Entry, Torn;
    var keyEnd := Find(form, at);
    if keyEnd == |form| || Find(form, keyEnd + 1) == |form| {
      TailStandsThere(form, at);
      NoEntries();
      rest := form[at..];
    } else {
      var textEnd := Find(form, keyEnd + 1);
      var f := EntryStandsThere(form, at, keyEnd, textEnd);
      rest := FramesStandThere(form, textEnd + 1);
      var fs := Frames(form, textEnd + 1);
      FormCons(f, fs);
      Regroup(Entry(f), Form(fs), rest);
    }
  }

  lemma NoEntries()
    ensures Form([]) == []
  {
  }

  lemma TornIsNothing(form: Bytes, at: nat)
    requires at <= |form| && Torn(form[at..])
    ensures Frames(form, at) == []
  {
    forall i, j | at <= i < j < |form|
      ensures !(form[i] == 0 && form[j] == 0)
    {
      assert form[at..][i - at] == form[i] && form[at..][j - at] == form[j];
    }
  }

  lemma HeadIsCarried(form: Bytes, at: nat, f: Frame, rest: Bytes)
    requires at <= |form| && form[at..] == Entry(f) + rest
    ensures at + |Entry(f)| <= |form| && Carries(form, at, f, |Entry(f)|) && form[at + |Entry(f)|..] == rest
  {
    forall k | at <= k < at + |Entry(f)|
      ensures form[k] == Entry(f)[k - at]
    {
      assert form[at..][k - at] == form[k];
    }
    assert form[at + |Entry(f)|..] == form[at..][|Entry(f)|..];
  }

  /** And the entries written before such a tail are the ones read. */
  lemma {:induction false} TailIsDropped(form: Bytes, at: nat, fs: seq<Frame>, rest: Bytes)
    requires at <= |form| && form[at..] == Form(fs) + rest && Torn(rest)
    ensures Frames(form, at) == fs
    decreases |fs|
  {
    hide Frames, Form, Entry, Torn, Carries;
    if |fs| == 0 {
      NoEntries();
      assert form[at..] == rest;
      TornIsNothing(form, at);
    } else {
      var f := fs[0];
      var next := at + |Entry(f)|;
      assert fs == [f] + fs[1..];
      FormCons(f, fs[1..]);
      Regroup(Entry(f), Form(fs[1..]), rest);
      HeadIsCarried(form, at, f, Form(fs[1..]) + rest);
      ReadEntry(form, at, f, next);
      TailIsDropped(form, next, fs[1..], rest);
    }
  }
}
