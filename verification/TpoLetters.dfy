/** Names of the intervals of a market profile: A to Z, then AA, AB and so on. */
module TpoLetters {
  import opened Words

  function Digit(n: nat): (c: char)
    requires n < 26
    ensures 'A' <= c <= 'Z'
  {
    (65 + n) as char
  }

  function Value(c: char): (n: nat)
    requires 'A' <= c <= 'Z'
    ensures n < 26
  {
    c as int - 65
  }

  /** Letters the name scheme can produce. */
  predicate IsName(name: string) {
    name != [] && forall i :: 0 <= i < |name| ==> 'A' <= name[i] <= 'Z'
  }

  function Name(ordinal: nat): (name: string)
    ensures IsName(name)
  {
    if ordinal < 26 then [Digit(ordinal)] else Name(ordinal / 26 - 1) + [Digit(ordinal % 26)]
  }

  /** The ordinal a name stands for. */
  function OrdinalOf(name: string): nat
    requires IsName(name)
  {
    var n := |name| - 1;
    if n == 0 then Value(name[0]) else (OrdinalOf(name[..n]) + 1) * 26 + Value(name[n])
  }

  lemma {:induction false} NameThenOrdinal(ordinal: nat)
    ensures OrdinalOf(Name(ordinal)) == ordinal
  {
    if ordinal >= 26 {
      NameThenOrdinal(ordinal / 26 - 1);
      var prefix := Name(ordinal / 26 - 1);
      assert (prefix + [Digit(ordinal % 26)])[..|prefix|] == prefix;
    }
  }

  /** Every string of capital letters names exactly one interval. */
  lemma {:induction false} OrdinalThenName(name: string)
    requires IsName(name)
    ensures Name(OrdinalOf(name)) == name
  {
    hide Name, OrdinalOf, Digit, Value;
    var n := |name| - 1;
    DigitOfValue(name[n]);
    if n > 0 {
      OrdinalThenName(name[..n]);
      OrdinalUnfolds(name);
      NameUnfolds(OrdinalOf(name[..n]), Value(name[n]));
      assert name == name[..n] + [name[n]];
    } else {
      OneLetter(name);
    }
  }

  lemma DigitOfValue(c: char)
    requires 'A' <= c <= 'Z'
    ensures Digit(Value(c)) == c
  {
  }

  lemma OneLetter(name: string)
    requires IsName(name) && |name| == 1
    ensures OrdinalOf(name) == Value(name[0]) && Name(OrdinalOf(name)) == name
  {
    assert name == [name[0]];
  }

  lemma OrdinalUnfolds(name: string)
    requires IsName(name) && |name| > 1
    ensures OrdinalOf(name) == (OrdinalOf(name[..|name| - 1]) + 1) * 26 + Value(name[|name| - 1])
  {
  }

  lemma NameUnfolds(high: nat, low: nat)
    requires low < 26
    ensures Name((high + 1) * 26 + low) == Name(high) + [Digit(low)]
  {
    DivideBy26(high + 1, low);
  }

  /** Shorter names come first, and among names of one length the alphabet decides. */
  predicate ComesBefore(a: string, b: string)
    requires |a| > 0 && |b| > 0
    decreases |a|
  {
    || |a| < |b|
    || (|a| == |b| && (
          var n := |a| - 1;
          (n > 0 && ComesBefore(a[..n], b[..n])) || (a[..n] == b[..n] && a[n] < b[n])))
  }

  /** Later intervals have later names; names being all strings of capital letters, this says which is which. */
  lemma {:induction false} NamesAscend(n: nat, m: nat)
    requires n < m
    ensures ComesBefore(Name(n), Name(m))
    decreases m
  {
    if m >= 26 {
      NameIsLonger(m);
      var q, d := m / 26 - 1, Digit(m % 26);
      if n < 26 {
      } else {
        var p, e := n / 26 - 1, Digit(n % 26);
        NameIsLonger(n);
        assert Name(n)[..|Name(n)| - 1] == Name(p) && Name(m)[..|Name(m)| - 1] == Name(q);
        if p < q { NamesAscend(p, q); } else { assert n % 26 < m % 26; }
      }
    }
  }

  lemma NameIsLonger(n: nat)
    requires n >= 26
    ensures |Name(n)| == |Name(n / 26 - 1)| + 1 >= 2
  {
  }

  lemma FirstNames()
    ensures Name(0) == "A" && Name(25) == "Z" && Name(26) == "AA" && Name(27) == "AB"
  {
  }

  lemma DivideBy26(high: nat, low: nat)
    requires low < 26
    ensures (high * 26 + low) / 26 == high && (high * 26 + low) % 26 == low
  {
    var x := high * 26 + low;
    ModIs(x, 26, high, low);
    assert x == 26 * (x / 26) + x % 26;
  }

  function Backwards(s: string): string {
    if s == [] then [] else Backwards(s[1..]) + [s[0]]
  }

  lemma {:induction false} BackwardsSnoc(s: string, c: char)
    ensures Backwards(s + [c]) == [c] + Backwards(s)
  {
    if s != [] {
      BackwardsSnoc(s[1..], c);
      assert (s + [c])[1..] == s[1..] + [c];
    } else {
      assert s + [c] == [c];
    }
  }

  /** Lowest digit first, then reversed. */
  method TpoLetterForOrdinal(ordinal: nat) returns (name: string)
    ensures name == Name(ordinal)
  {
    var letters := "";
    var remaining := ordinal;
    while remaining >= 26
      invariant Name(remaining) + Backwards(letters) == Name(ordinal)
    {
      BackwardsSnoc(letters, Digit(remaining % 26));
      ghost var rest := Name(remaining / 26 - 1);
      assert rest + ([Digit(remaining % 26)] + Backwards(letters)) == Name(remaining) + Backwards(letters);
      letters := letters + [Digit(remaining % 26)];
      remaining := remaining / 26 - 1;
    }
    BackwardsSnoc(letters, Digit(remaining));
    name := Backwards(letters + [Digit(remaining)]);
  }
}
