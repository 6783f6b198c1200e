/** The decimal spelling of a tick count on the wire, and the reader that refuses everything else. */
module Decimal {
  import opened Paths

  /** `system_clock` ticks as the wire carries them: a signed 64-bit count of nanoseconds. */
  type Ticks = t: int | -0x8000_0000_0000_0000 <= t < 0x8000_0000_0000_0000

  predicate FitsInt64(t: int) {
    -0x8000_0000_0000_0000 <= t < 0x8000_0000_0000_0000
  }

  const MINUS: Byte := 45

  predicate IsDigit(b: Byte) {
    48 <= b <= 57
  }

  function Digits(n: nat): (ds: Bytes)
    ensures |ds| > 0 && forall i :: 0 <= i < |ds| ==> IsDigit(ds[i])
  {
    if n < 10 then [48 + n] else Digits(n / 10) + [48 + n % 10]
  }

  /** `std::to_string` of a tick count. */
  function Print(t: int): (s: Bytes)
    ensures |s| > 0 && NUL !in s
  {
    if t < 0 then [MINUS] + Digits(-t) else Digits(t)
  }

  function Number(ds: Bytes): (value: nat)
    requires forall i :: 0 <= i < |ds| ==> IsDigit(ds[i])
  {
    if ds == [] then 0 else
      var last: int := ds[|ds| - 1];
      assert IsDigit(ds[|ds| - 1]);
      Number(ds[..|ds| - 1]) * 10 + (last - 48)
  }

  /** What `from_chars` accepts when it has to consume the whole of the text: an optional minus
      and at least one digit. */
  predicate Spelled(s: Bytes) {
    var ds := Unsigned(s);
    |ds| > 0 && forall i :: 0 <= i < |ds| ==> IsDigit(ds[i])
  }

  function Unsigned(s: Bytes): (digits: Bytes) {
    if |s| > 0 && s[0] == MINUS then s[1..] else s
  }

  function Read(s: Bytes): (value: int)
    requires Spelled(s)
  {
    var magnitude: int := Number(Unsigned(s));
    if |s| > 0 && s[0] == MINUS then -magnitude else magnitude
  }

  predicate Misspelled(s: Bytes) {
    !(Spelled(s) && FitsInt64(Read(s)))
  }

  /** A count that is misspelled or does not fit reads as the epoch. */
  function FromTicks(s: Bytes): (t: Ticks)
  {
    if Misspelled(s) then 0 else Read(s)
  }

  lemma {:induction false} NumberOfDigits(n: nat)
    ensures Number(Digits(n)) == n
  {
    if n >= 10 {
      NumberOfDigits(n / 10);
      var ds := Digits(n);
      assert ds[..|ds| - 1] == Digits(n / 10);
    }
  }

  lemma PrintThenRead(t: Ticks)
    ensures Spelled(Print(t)) && FromTicks(Print(t)) == t
  {
    if t < 0 {
      var n: int := t;
      NumberOfDigits(-n);
      assert Unsigned(Print(t)) == Digits(-n);
    } else {
      NumberOfDigits(t);
      assert IsDigit(Digits(t)[0]);
      assert Unsigned(Print(t)) == Digits(t);
    }
  }

  // ---- The spelling ----

  function PowerOfTen(n: nat): (power: nat) {
    if n == 0 then 1 else 10 * PowerOfTen(n - 1)
  }

  /** What digits stand for, each by its place. */
  function Places(ds: Bytes): (value: int) {
    if |ds| == 0 then 0 else (ds[0] as int - 48) * PowerOfTen(|ds| - 1) + Places(ds[1..])
  }

  /** Decimal digits behind at most one minus sign. */
  predicate IsDecimal(s: Bytes) {
    if |s| > 0 && s[0] == 45 then AreDigits(s[1..]) else AreDigits(s)
  }

  predicate AreDigits(ds: Bytes) {
    |ds| > 0 && forall i :: 0 <= i < |ds| ==> 48 <= ds[i] <= 57
  }

  function DecimalValue(s: Bytes): (value: int) {
    if |s| > 0 && s[0] == 45 then -Places(s[1..]) else Places(s)
  }

  /** No zero in front but zero itself, and no minus zero. */
  predicate IsShortest(s: Bytes) {
    IsDecimal(s) && (s[0] == 48 ==> s == [48]) && (s[0] == 45 ==> s[1] != 48)
  }

  lemma {:induction false} PlacesAppend(ds: Bytes, d: Byte)
    ensures Places(ds + [d]) == 10 * Places(ds) + (d as int - 48)
  {
    if |ds| == 0 {
      assert ds + [d] == [d];
      assert Places([d]) == (d as int - 48) * PowerOfTen(0) + Places([]);
    } else {
      assert (ds + [d])[1..] == ds[1..] + [d];
      PlacesAppend(ds[1..], d);
      var first := ds[0] as int - 48;
      assert first * PowerOfTen(|ds|) == 10 * (first * PowerOfTen(|ds| - 1));
    }
  }

  lemma {:induction false} NumberIsByPlaces(ds: Bytes)
    requires forall i :: 0 <= i < |ds| ==> IsDigit(ds[i])
    ensures Number(ds) == Places(ds)
  {
    if |ds| > 0 {
      NumberIsByPlaces(ds[..|ds| - 1]);
      PlacesAppend(ds[..|ds| - 1], ds[|ds| - 1]);
      assert ds[..|ds| - 1] + [ds[|ds| - 1]] == ds;
    }
  }

  lemma DigitsAreDigits(ds: Bytes)
    ensures AreDigits(ds) <==> |ds| > 0 && forall i :: 0 <= i < |ds| ==> IsDigit(ds[i])
  {
  }

  lemma DecimalIsSpelled(s: Bytes)
    ensures Spelled(s) <==> IsDecimal(s)
    ensures IsDecimal(s) ==> forall i :: 0 <= i < |Unsigned(s)| ==> IsDigit(Unsigned(s)[i])
    ensures Unsigned(s) == if |s| > 0 && s[0] == 45 then s[1..] else s
  {
    DigitsAreDigits(Unsigned(s));
  }

  /** `from_ticks`: a decimal count that fits 64 bits, zeros in front or not, is read as its value, and
      any other text as the epoch. */
  lemma ReadExactly(s: Bytes)
    ensures FromTicks(s) ==
            if IsDecimal(s) && -9223372036854775808 <= DecimalValue(s) <= 9223372036854775807 then DecimalValue(s)
            else 0
  {
    DecimalIsSpelled(s);
    if IsDecimal(s) {
      NumberIsByPlaces(Unsigned(s));
    }
  }

  lemma {:induction false} ShortestDigits(ds: Bytes)
    requires |ds| > 0 && (forall i :: 0 <= i < |ds| ==> IsDigit(ds[i])) && (ds[0] == 48 ==> |ds| == 1)
    ensures Digits(Number(ds)) == ds
    ensures Number(ds) == 0 <==> ds == [48]
  {
    if |ds| > 1 {
      var most, last := ds[..|ds| - 1], ds[|ds| - 1];
      assert most[0] == ds[0];
      ShortestDigits(most);
      assert IsDigit(last);
      assert Number(ds) == Number(most) * 10 + (last - 48);
      assert Number(most) != 0;
      assert ds == most + [last];
    } else {
      assert IsDigit(ds[0]);
      assert ds[..0] == [] && Number([]) == 0;
      assert ds == [ds[0]];
    }
  }

  lemma {:induction false} DigitsAreShortest(n: nat)
    ensures Digits(n)[0] == 48 <==> n == 0
    ensures n == 0 ==> Digits(n) == [48]
  {
    if n >= 10 {
      DigitsAreShortest(n / 10);
    }
  }

  lemma ShortestIsPrinted(s: Bytes)
    requires IsShortest(s)
    ensures s == Print(DecimalValue(s))
  {
    DecimalIsSpelled(s);
    var ds := Unsigned(s);
    NumberIsByPlaces(ds);
    ShortestDigits(ds);
    if s[0] == 45 {
      assert s == [45] + ds;
      assert ds[0] != 48;
    }
  }

  lemma PrintedIsShortest(t: int)
    ensures IsShortest(Print(t)) && DecimalValue(Print(t)) == t
  {
    var n: nat := if t < 0 then -t else t;
    var ds := Digits(n);
    DigitsAreShortest(n);
    NumberOfDigits(n);
    NumberIsByPlaces(ds);
    DigitsAreDigits(ds);
    assert IsDigit(ds[0]);
    if t < 0 {
      assert ([45] + ds)[1..] == ds;
    }
  }

  /** `std::to_string`: the one shortest decimal spelling of each count. */
  lemma PrintExactly(t: int, s: Bytes)
    ensures s == Print(t) <==> IsShortest(s) && DecimalValue(s) == t
  {
    PrintedIsShortest(t);
    if IsShortest(s) {
      ShortestIsPrinted(s);
    }
  }
}
