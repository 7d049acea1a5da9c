/** `countInstancesOfLabel` of mnist.go, and the occurrence count that
    specifies it. */
module Counting {

  /** How many positions of `s` hold `x`. */
  function Occurrences<T(==)>(s: seq<T>, x: T): nat
  {
    if |s| == 0 then 0
    else Occurrences(s[..|s| - 1], x) + (if s[|s| - 1] == x then 1 else 0)
  }

  /** At most every position holds `x`. */
  lemma {:induction false} OccurrencesBounded<T>(s: seq<T>, x: T)
    ensures Occurrences(s, x) <= |s|
  {
    if |s| > 0 {
      OccurrencesBounded(s[..|s| - 1], x);
    }
  }

  /** `x` is counted at least once exactly when it occurs. */
  lemma {:induction false} OccurrencesPositive<T>(s: seq<T>, x: T)
    ensures Occurrences(s, x) > 0 <==> x in s
  {
    if |s| > 0 {
      var init := s[..|s| - 1];
      OccurrencesPositive(init, x);
      assert s == init + [s[|s| - 1]];
    }
  }

  /** Counting distributes over concatenation. */
  lemma {:induction false} OccurrencesAppend<T>(a: seq<T>, b: seq<T>, x: T)
    ensures Occurrences(a + b, x) == Occurrences(a, x) + Occurrences(b, x)
  {
    if |b| > 0 {
      var init := b[..|b| - 1];
      OccurrencesAppend(a, init, x);
      assert (a + b)[..|a + b| - 1] == a + init;
    } else {
      assert a + b == a;
    }
  }

  /** Across a positional split, the counts of the two parts add up to the
      count of the whole. */
  lemma OccurrencesSplit<T>(s: seq<T>, k: nat, x: T)
    requires k <= |s|
    ensures Occurrences(s[..k], x) + Occurrences(s[k..], x) == Occurrences(s, x)
  {
    OccurrencesAppend(s[..k], s[k..], x);
    assert s[..k] + s[k..] == s;
  }

  /** `countInstancesOfLabel(labels, label)`: walk the data once, counting
      the positions equal to the label. */
  method CountInstancesOfLabel(data: seq<int>, lbl: int) returns (count: nat)
    ensures count == Occurrences(data, lbl)
    ensures count <= |data|
  {
    count := 0;
    for i := 0 to |data|
      invariant count == Occurrences(data[..i], lbl)
    {
      assert data[..i + 1][..i] == data[..i];
      if data[i] == lbl {
        count := count + 1;
      }
    }
    assert data[..|data|] == data;
    OccurrencesBounded(data, lbl);
  }
}
