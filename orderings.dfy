/** `itertools.permutations(xs)` over a whole list: every ordering of the
    list's positions, in the order itertools yields them (lexicographic in
    the positions: the orderings that start with `xs[0]` first, then those
    that start with `xs[1]`, and so on). Equal elements at different
    positions give repeated orderings, as in Python. */
module Orderings {

  function Factorial(n: nat): nat {
    if n == 0 then 1 else n * Factorial(n - 1)
  }

  function RemoveAt<T>(s: seq<T>, i: nat): (r: seq<T>)
    requires i < |s|
    ensures |r| == |s| - 1
  {
    s[..i] + s[i + 1..]
  }

  lemma RemoveAtMultiset<T>(s: seq<T>, i: nat)
    requires i < |s|
    ensures multiset(RemoveAt(s, i)) + multiset{s[i]} == multiset(s)
  {
    assert s == s[..i] + [s[i]] + s[i + 1..];
  }

  function Permutations<T>(s: seq<T>): seq<seq<T>>
    decreases |s|, 1
  {
    if |s| == 0 then [[]] else PermutationsFrom(s, 0)
  }

  /** The orderings whose first element is taken from position `i` or later. */
  function PermutationsFrom<T>(s: seq<T>, i: nat): seq<seq<T>>
    requires i <= |s|
    decreases |s|, 0, |s| - i
  {
    if i == |s| then []
    else
      var rest := Permutations(RemoveAt(s, i));
      seq(|rest|, k requires 0 <= k < |rest| => [s[i]] + rest[k]) + PermutationsFrom(s, i + 1)
  }

  /** Each ordering produced is a rearrangement of the input. */
  lemma {:induction false} PermutationsSound<T>(s: seq<T>)
    ensures forall k | 0 <= k < |Permutations(s)| :: multiset(Permutations(s)[k]) == multiset(s)
    decreases |s|, 1
  {
    if |s| > 0 {
      PermutationsFromSound(s, 0);
    }
  }

  lemma {:induction false} PermutationsFromSound<T>(s: seq<T>, i: nat)
    requires i <= |s|
    ensures forall k | 0 <= k < |PermutationsFrom(s, i)| :: multiset(PermutationsFrom(s, i)[k]) == multiset(s)
    decreases |s|, 0, |s| - i
  {
    if i < |s| {
      var rest := Permutations(RemoveAt(s, i));
      var head := seq(|rest|, k requires 0 <= k < |rest| => [s[i]] + rest[k]);
      PermutationsSound(RemoveAt(s, i));
      RemoveAtMultiset(s, i);
      PermutationsFromSound(s, i + 1);
      assert PermutationsFrom(s, i) == head + PermutationsFrom(s, i + 1);
      forall k | 0 <= k < |head| ensures multiset(head[k]) == multiset(s) {
        assert multiset(head[k]) == multiset{s[i]} + multiset(rest[k]);
      }
    }
  }

  /** Every rearrangement of the input is produced. */
  lemma {:induction false} PermutationsComplete<T>(s: seq<T>, p: seq<T>)
    requires multiset(p) == multiset(s)
    ensures p in Permutations(s)
    decreases |s|
  {
    assert |p| == |multiset(p)| == |s|;
    if |s| > 0 {
      assert p[0] in multiset(s);
      var i :| 0 <= i < |s| && s[i] == p[0];
      assert p == [p[0]] + p[1..];
      RemoveAtMultiset(s, i);
      assert multiset(p) == multiset{p[0]} + multiset(p[1..]);
      assert multiset(p[1..]) == multiset(p) - multiset{p[0]};
      assert multiset(RemoveAt(s, i)) == multiset(s) - multiset{s[i]};
      PermutationsComplete(RemoveAt(s, i), p[1..]);
      PermutationsFromContains(s, 0, i, p[1..]);
    }
  }

  lemma {:induction false} PermutationsFromContains<T>(s: seq<T>, j: nat, i: nat, q: seq<T>)
    requires j <= i < |s|
    requires q in Permutations(RemoveAt(s, i))
    ensures [s[i]] + q in PermutationsFrom(s, j)
    decreases i - j
  {
    var rest := Permutations(RemoveAt(s, j));
    var head := seq(|rest|, k requires 0 <= k < |rest| => [s[j]] + rest[k]);
    assert PermutationsFrom(s, j) == head + PermutationsFrom(s, j + 1);
    if j == i {
      var k :| 0 <= k < |rest| && rest[k] == q;
      assert head[k] == [s[i]] + q;
    } else {
      PermutationsFromContains(s, j + 1, i, q);
    }
  }

  /** A list of n elements has n! orderings. */
  lemma {:induction false} PermutationsCount<T>(s: seq<T>)
    ensures |Permutations(s)| == Factorial(|s|)
    decreases |s|, 1
  {
    if |s| > 0 {
      PermutationsFromCount(s, 0);
    }
  }

  lemma {:induction false} PermutationsFromCount<T>(s: seq<T>, i: nat)
    requires 0 < |s| && i <= |s|
    ensures |PermutationsFrom(s, i)| == (|s| - i) * Factorial(|s| - 1)
    decreases |s|, 0, |s| - i
  {
    if i < |s| {
      PermutationsCount(RemoveAt(s, i));
      PermutationsFromCount(s, i + 1);
      calc {
        |PermutationsFrom(s, i)|;
        Factorial(|s| - 1) + (|s| - (i + 1)) * Factorial(|s| - 1);
        (|s| - i) * Factorial(|s| - 1);
      }
    }
  }
}
