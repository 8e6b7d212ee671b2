/**
  `shuffle` (index.js:160-166): the in-place Fisher–Yates shuffle the draw runs
  on a giveaway's participants. For i from length - 1 down to 1 it swaps
  positions i and j, where j is drawn from [0, i].

  The random source `crypto.randomInt(0, i + 1)` is a parameter `pick`: the
  index drawn at step i is `pick(i)`. Each step i draws exactly once per
  shuffle, so a function of i can stand for any run of the generator.
 */
module FisherYates {

  /** What the random source promises: the index drawn at step i lies in [0, i]. */
  ghost predicate InRange(pick: nat -> nat) {
    forall i :: pick(i) <= i
  }

  /** No two elements share a key. */
  ghost predicate DistinctBy<T, K>(s: seq<T>, key: T -> K) {
    forall i, j :: 0 <= i < j < |s| ==> key(s[i]) != key(s[j])
  }

  function Swap<T>(s: seq<T>, i: nat, j: nat): (r: seq<T>)
    requires i < |s| && j < |s|
    ensures |r| == |s| && r[i] == s[j] && r[j] == s[i]
    ensures forall k :: 0 <= k < |s| && k != i && k != j ==> r[k] == s[k]
  {
    s[i := s[j]][j := s[i]]
  }

  lemma SwapIsPermutation<T>(s: seq<T>, i: nat, j: nat)
    requires i < |s| && j < |s|
    ensures multiset(Swap(s, i, j)) == multiset(s)
  {
  }

  /** Steps i, i - 1, ..., 1 of the loop, on a sequence. */
  ghost function ShuffleDown<T>(s: seq<T>, i: nat, pick: nat -> nat): (r: seq<T>)
    requires i < |s| && InRange(pick)
    ensures |r| == |s|
    ensures forall k :: i < k < |s| ==> r[k] == s[k]
    decreases i
  {
    if i == 0 then s else ShuffleDown(Swap(s, i, pick(i)), i - 1, pick)
  }

  /** What `shuffle(array)` leaves in the array. */
  ghost function Shuffled<T>(s: seq<T>, pick: nat -> nat): (r: seq<T>)
    requires InRange(pick)
    ensures |r| == |s|
  {
    if |s| == 0 then s else ShuffleDown(s, |s| - 1, pick)
  }

  /** The loop of index.js:161-164, swapping array cells in place. */
  method Shuffle<T>(a: array<T>, pick: nat -> nat)
    requires InRange(pick)
    modifies a
    ensures a[..] == Shuffled(old(a[..]), pick)
    ensures multiset(a[..]) == multiset(old(a[..]))
  {
    var i := a.Length - 1;
    while i > 0
      invariant -1 <= i < a.Length
      invariant a.Length == 0 ==> a[..] == old(a[..])
      invariant a.Length > 0 ==> 0 <= i && ShuffleDown(a[..], i, pick) == Shuffled(old(a[..]), pick)
    {
      ghost var before := a[..];
      var j := pick(i);
      a[i], a[j] := a[j], a[i];
      assert a[..] == Swap(before, i, j);
      i := i - 1;
    }
    ShuffledIsPermutation(old(a[..]), pick);
  }

  // ---------------------------------------------------------------------------
  // The result is a permutation of the input
  // ---------------------------------------------------------------------------

  lemma {:induction false} ShuffleDownIsPermutation<T>(s: seq<T>, i: nat, pick: nat -> nat)
    requires i < |s| && InRange(pick)
    ensures |ShuffleDown(s, i, pick)| == |s|
    ensures multiset(ShuffleDown(s, i, pick)) == multiset(s)
    decreases i
  {
    if i > 0 {
      ShuffleDownIsPermutation(Swap(s, i, pick(i)), i - 1, pick);
    }
  }

  /** `shuffle` returns the same elements, each as often as before, in a new order. */
  lemma ShuffledIsPermutation<T>(s: seq<T>, pick: nat -> nat)
    requires InRange(pick)
    ensures |Shuffled(s, pick)| == |s|
    ensures multiset(Shuffled(s, pick)) == multiset(s)
  {
    if |s| > 0 {
      ShuffleDownIsPermutation(s, |s| - 1, pick);
    }
  }

  lemma {:induction false} ShuffleDownKeepsDistinct<T, K>(s: seq<T>, i: nat, pick: nat -> nat, key: T -> K)
    requires i < |s| && InRange(pick) && DistinctBy(s, key)
    ensures DistinctBy(ShuffleDown(s, i, pick), key)
    decreases i
  {
    if i > 0 {
      SwapKeepsDistinct(s, i, pick(i), key);
      ShuffleDownKeepsDistinct(Swap(s, i, pick(i)), i - 1, pick, key);
    }
  }

  /** Keys that were pairwise distinct before the shuffle still are after it. */
  lemma ShuffledKeepsDistinct<T, K>(s: seq<T>, pick: nat -> nat, key: T -> K)
    requires InRange(pick) && DistinctBy(s, key)
    ensures DistinctBy(Shuffled(s, pick), key)
  {
    if |s| > 0 {
      ShuffleDownKeepsDistinct(s, |s| - 1, pick, key);
    }
  }

  // ---------------------------------------------------------------------------
  // Every order is reached by exactly one sequence of draws
  // ---------------------------------------------------------------------------

  /** A swap inside s leaves what follows s alone. */
  lemma SwapAppend<T>(s: seq<T>, t: seq<T>, i: nat, j: nat)
    requires i < |s| && j < |s|
    ensures Swap(s + t, i, j) == Swap(s, i, j) + t
  {
    assert forall k :: 0 <= k < |s| + |t| ==> Swap(s + t, i, j)[k] == (Swap(s, i, j) + t)[k];
  }

  /** Steps i..1 only touch the first i + 1 positions, so whatever follows is carried along. */
  lemma {:induction false} ShuffleDownAppend<T>(s: seq<T>, t: seq<T>, i: nat, pick: nat -> nat)
    requires i < |s| && InRange(pick)
    ensures ShuffleDown(s + t, i, pick) == ShuffleDown(s, i, pick) + t
    decreases i
  {
    if i > 0 {
      SwapAppend(s, t, i, pick(i));
      ShuffleDownAppend(Swap(s, i, pick(i)), t, i - 1, pick);
    }
  }

  /** Steps i..1 depend only on the draws made at those steps. */
  lemma {:induction false} ShuffleDownSameDraws<T>(s: seq<T>, i: nat, p: nat -> nat, q: nat -> nat)
    requires i < |s| && InRange(p) && InRange(q)
    requires forall k :: 1 <= k <= i ==> p(k) == q(k)
    ensures ShuffleDown(s, i, p) == ShuffleDown(s, i, q)
    decreases i
  {
    if i > 0 {
      assert p(i) == q(i);
      ShuffleDownSameDraws(Swap(s, i, p(i)), i - 1, p, q);
    }
  }

  /** The draws `p` with `j` drawn at step i in place of `p(i)`. */
  ghost function Redraw(p: nat -> nat, i: nat, j: nat): nat -> nat {
    k => if k == i then j else p(k)
  }

  /** Drawing j first puts s[j] last; the remaining steps shuffle the rest. */
  lemma ShuffledAfterFirstDraw<T>(s: seq<T>, j: nat, p: nat -> nat)
    requires 2 <= |s| && j < |s| && InRange(p)
    ensures InRange(Redraw(p, |s| - 1, j))
    ensures Shuffled(s, Redraw(p, |s| - 1, j)) == Shuffled(Swap(s, |s| - 1, j)[..|s| - 1], p) + [s[j]]
  {
    var n, pick := |s|, Redraw(p, |s| - 1, j);
    RedrawAgrees(p, n - 1, j);
    var s' := Swap(s, n - 1, j);
    var rest := s'[..n - 1];
    assert s' == rest + [s[j]];
    assert Shuffled(s, pick) == ShuffleDown(s', n - 2, pick);
    ShuffleDownAppend(rest, [s[j]], n - 2, pick);
    ShuffleDownSameDraws(rest, n - 2, pick, p);
    assert Shuffled(rest, p) == ShuffleDown(rest, n - 2, p);
  }

  /** Redrawing step i within range keeps the draws in range and the other steps as they were. */
  lemma RedrawAgrees(p: nat -> nat, i: nat, j: nat)
    requires j <= i && InRange(p)
    ensures InRange(Redraw(p, i, j)) && Redraw(p, i, j)(i) == j
    ensures forall k :: k != i ==> Redraw(p, i, j)(k) == p(k)
  {
  }

  lemma MultisetDropLast<T>(a: seq<T>, b: seq<T>, x: T)
    requires multiset(a + [x]) == multiset(b + [x])
    ensures multiset(a) == multiset(b)
  {
    assert multiset(a + [x]) == multiset(a) + multiset{x};
    assert multiset(b + [x]) == multiset(b) + multiset{x};
    assert forall y :: multiset(a)[y] == multiset(a + [x])[y] - multiset{x}[y];
  }

  /** Up to one element, there is only one order, and any draws give it. */
  lemma ShortIsFixed<T>(s: seq<T>, t: seq<T>)
    requires multiset(s) == multiset(t) && |s| <= 1
    ensures exists pick :: InRange(pick) && Shuffled(s, pick) == t
  {
    var pick: nat -> nat := k => 0;
    assert |t| == |multiset(t)| == |s|;
    if |s| == 1 {
      assert s[0] in multiset(t);
      assert t == [t[0]] && s == [s[0]];
    }
    assert Shuffled(s, pick) == t;
  }

  /** Every rearrangement of the input is the outcome of some admissible sequence of draws. */
  lemma {:induction false} EveryPermutationReachable<T>(s: seq<T>, t: seq<T>)
    requires multiset(s) == multiset(t)
    ensures exists pick :: InRange(pick) && Shuffled(s, pick) == t
    decreases |s|
  {
    assert |s| == |multiset(s)| == |multiset(t)| == |t|;
    var n := |s|;
    if n <= 1 {
      ShortIsFixed(s, t);
    } else {
      var x := t[n - 1];
      assert x in multiset(s) by { assert x in multiset(t); }
      var j :| 0 <= j < n && s[j] == x;
      var s' := Swap(s, n - 1, j);
      DrawLastFirst(s, t, j);
      EveryPermutationReachable(s'[..n - 1], t[..n - 1]);
      var p :| InRange(p) && Shuffled(s'[..n - 1], p) == t[..n - 1];
      ExtendDraws(s, t, j, p);
    }
  }

  /** Putting the element t ends with last in `s` leaves the same elements before it in both. */
  lemma DrawLastFirst<T>(s: seq<T>, t: seq<T>, j: nat)
    requires multiset(s) == multiset(t) && 2 <= |s| == |t| && j < |s| && s[j] == t[|s| - 1]
    ensures multiset(Swap(s, |s| - 1, j)[..|s| - 1]) == multiset(t[..|s| - 1])
  {
    var n, s' := |s|, Swap(s, |s| - 1, j);
    var a, b, x := s'[..n - 1], t[..n - 1], t[n - 1];
    SwapIsPermutation(s, n - 1, j);
    LastSplit(s');
    LastSplit(t);
    MultisetDropLast(a, b, x);
  }

  lemma LastSplit<T>(s: seq<T>)
    requires |s| >= 1
    ensures s[..|s| - 1] + [s[|s| - 1]] == s
  {
  }

  /** Draws that order the rest after s[j] is put last, preceded by drawing j, order all of `s`. */
  lemma ExtendDraws<T>(s: seq<T>, t: seq<T>, j: nat, p: nat -> nat)
    requires 2 <= |s| == |t| && j < |s| && s[j] == t[|s| - 1] && InRange(p)
    requires Shuffled(Swap(s, |s| - 1, j)[..|s| - 1], p) == t[..|s| - 1]
    ensures InRange(Redraw(p, |s| - 1, j)) && Shuffled(s, Redraw(p, |s| - 1, j)) == t
  {
    ShuffledAfterFirstDraw(s, j, p);
    assert t == t[..|s| - 1] + [t[|s| - 1]];
  }

  /** After steps i..1, position i holds the element drawn at step i. */
  lemma ShuffleDownLast<T>(s: seq<T>, i: nat, pick: nat -> nat)
    requires 0 < i < |s| && InRange(pick)
    ensures ShuffleDown(s, i, pick)[i] == s[pick(i)]
  {
    var s' := Swap(s, i, pick(i));
    var front, back := s'[..i], s'[i..];
    assert s' == front + back && back[0] == s[pick(i)];
    ShuffleDownAppend(front, back, i - 1, pick);
    assert ShuffleDown(s, i, pick) == ShuffleDown(front, i - 1, pick) + back;
  }

  /**
    On elements with distinct keys, two sequences of draws that give the same
    order made the same draw at every step: each of the n! orders comes from
    exactly one of the n! admissible draw sequences.
   */
  lemma {:induction false} DrawsDetermineOrder<T, K>(s: seq<T>, p: nat -> nat, q: nat -> nat, key: T -> K)
    requires InRange(p) && InRange(q) && DistinctBy(s, key)
    requires Shuffled(s, p) == Shuffled(s, q)
    ensures forall k :: 1 <= k < |s| ==> p(k) == q(k)
  {
    if |s| > 0 {
      ShuffleDownDetermined(s, |s| - 1, p, q, key);
    }
  }

  lemma {:induction false} ShuffleDownDetermined<T, K>(s: seq<T>, i: nat, p: nat -> nat, q: nat -> nat, key: T -> K)
    requires i < |s| && InRange(p) && InRange(q) && DistinctBy(s, key)
    requires ShuffleDown(s, i, p) == ShuffleDown(s, i, q)
    ensures forall k :: 1 <= k <= i ==> p(k) == q(k)
    decreases i
  {
    if i > 0 {
      ShuffleDownLast(s, i, p);
      ShuffleDownLast(s, i, q);
      assert key(s[p(i)]) == key(s[q(i)]);
      assert p(i) == q(i);
      var s' := Swap(s, i, p(i));
      SwapKeepsDistinct(s, i, p(i), key);
      ShuffleDownDetermined(s', i - 1, p, q, key);
    }
  }

  lemma SwapKeepsDistinct<T, K>(s: seq<T>, i: nat, j: nat, key: T -> K)
    requires i < |s| && j < |s| && DistinctBy(s, key)
    ensures DistinctBy(Swap(s, i, j), key)
  {
    var s' := Swap(s, i, j);
    forall a, b | 0 <= a < b < |s'| ensures key(s'[a]) != key(s'[b]) {
      var a' := if a == i then j else if a == j then i else a;
      var b' := if b == i then j else if b == j then i else b;
      assert s'[a] == s[a'] && s'[b] == s[b'] && a' != b';
      if a' < b' {
        assert key(s[a']) != key(s[b']);
      } else {
        assert key(s[b']) != key(s[a']);
      }
    }
  }
}
