/** Counting occurrences, as both counters do: a key seen for the first
    time gets the count 1, a key seen again gets one more. */
module Histogram {

  /** Counting `k` once more: a first sighting is set to 1, a later one
      incremented. */
  function Bump<K>(m: map<K, nat>, k: K): map<K, nat> {
    if k !in m then m[k := 1] else m[k := m[k] + 1]
  }

  /** The counts after going through `s` from the front. */
  function Tally<K>(s: seq<K>): map<K, nat> {
    if s == [] then map[] else Bump(Tally(s[..|s| - 1]), s[|s| - 1])
  }

  /** The keys in the order they were first seen, as a `MapVector` keeps
      them. */
  function FirstSeen<K(==)>(s: seq<K>): seq<K> {
    if s == [] then []
    else
      var o := FirstSeen(s[..|s| - 1]);
      var k := s[|s| - 1];
      if k in o then o else o + [k]
  }

  predicate Distinct<K(==)>(o: seq<K>) {
    forall i, j :: 0 <= i < j < |o| ==> o[i] != o[j]
  }

  /** The counts are the multiplicities of the keys in `s`: a key is
      counted exactly when it occurs, and as often as it occurs. */
  lemma {:induction false} TallyIsMultiset<K>(s: seq<K>)
    ensures forall k :: k in Tally(s) <==> k in multiset(s)
    ensures forall k :: k in Tally(s) ==> Tally(s)[k] == multiset(s)[k]
  {
    if s != [] {
      var t, x := s[..|s| - 1], s[|s| - 1];
      assert s == t + [x];
      TallyIsMultiset(t);
      assert multiset(s) == multiset(t) + multiset{x};
    }
  }

  /** Every key occurring in `s` is listed once in `FirstSeen(s)`, and
      nothing else is. */
  lemma {:induction false} FirstSeenKeys<K>(s: seq<K>)
    ensures Distinct(FirstSeen(s))
    ensures forall k :: k in FirstSeen(s) <==> k in s
  {
    if s != [] {
      var t, x := s[..|s| - 1], s[|s| - 1];
      assert s == t + [x];
      FirstSeenKeys(t);
    }
  }

  /** Counting one more entry: its count is bumped, and it is appended to
      the first-seen order exactly when it had no count yet. */
  lemma SnocStep<K>(s: seq<K>, x: K)
    ensures Tally(s + [x]) == Bump(Tally(s), x)
    ensures FirstSeen(s + [x]) == if x in Tally(s) then FirstSeen(s) else FirstSeen(s) + [x]
  {
    assert (s + [x])[..|s|] == s;
    TallyIsMultiset(s);
    FirstSeenKeys(s);
    assert x in multiset(s) <==> x in s;
  }

  /** The sum of the counts of the keys in `order`. */
  function SumCounts<K>(order: seq<K>, m: map<K, nat>): nat
    requires forall k :: k in order ==> k in m
  {
    if order == [] then 0 else m[order[0]] + SumCounts(order[1..], m)
  }

  /** A count changed for a key not listed does not change the sum. */
  lemma {:induction false} SumIgnores<K>(order: seq<K>, m: map<K, nat>, x: K, v: nat)
    requires forall k :: k in order ==> k in m
    requires x !in order
    ensures SumCounts(order, m[x := v]) == SumCounts(order, m)
  {
    if order != [] {
      assert order[0] in order;
      SumIgnores(order[1..], m, x, v);
    }
  }

  /** One more for a key listed once adds one to the sum. */
  lemma {:induction false} SumBump<K>(order: seq<K>, m: map<K, nat>, x: K)
    requires forall k :: k in order ==> k in m
    requires Distinct(order) && x in order
    ensures SumCounts(order, m[x := m[x] + 1]) == SumCounts(order, m) + 1
  {
    assert order[0] in order;
    if order[0] == x {
      assert x !in order[1..] by {
        forall j | 0 <= j < |order[1..]|
          ensures order[1..][j] != x
        {
          assert order[j + 1] != order[0];
        }
      }
      SumIgnores(order[1..], m, x, m[x] + 1);
    } else {
      SumBump(order[1..], m, x);
    }
  }

  lemma {:induction false} SumSnoc<K>(order: seq<K>, m: map<K, nat>, x: K)
    requires forall k :: k in order ==> k in m
    requires x in m
    ensures SumCounts(order + [x], m) == SumCounts(order, m) + m[x]
  {
    if order == [] {
      assert order + [x] == [x];
    } else {
      assert order[0] in order;
      assert (order + [x])[1..] == order[1..] + [x];
      SumSnoc(order[1..], m, x);
    }
  }

  /** The counts of all keys, in the order they were first seen, add up to
      the number of entries counted. */
  lemma {:induction false} TallySum<K>(s: seq<K>)
    ensures forall k :: k in FirstSeen(s) ==> k in Tally(s)
    ensures SumCounts(FirstSeen(s), Tally(s)) == |s|
  {
    FirstSeenKeys(s);
    TallyIsMultiset(s);
    if s != [] {
      var t, x := s[..|s| - 1], s[|s| - 1];
      var o, m := FirstSeen(t), Tally(t);
      TallySum(t);
      FirstSeenKeys(t);
      TallyIsMultiset(t);
      if x in o {
        SumBump(o, m, x);
      } else {
        SumIgnores(o, m, x, 1);
        SumSnoc(o, m[x := 1], x);
      }
    }
  }
}
