/** Bounds-checked exchange of two positions of a sequence, the shared meaning
    of `swap_chars` (main.cpp), `swap` and `swapMatrixRows` (old.cpp), and the
    facts about it that keep keys permutations. */
module Swaps {

  /** Both indices are positions of `s`. */
  predicate InRange<T>(s: seq<T>, a: int, b: int) {
    0 <= a < |s| && 0 <= b < |s|
  }

  /** `s` with positions `a` and `b` exchanged; `s` itself when either index
      is out of range (the sources print a diagnostic and do nothing). */
  function Swapped<T>(s: seq<T>, a: int, b: int): seq<T>
  {
    if InRange(s, a, b) then s[a := s[b]][b := s[a]] else s
  }

  /** What Swapped does, position by position, and that it permutes. */
  lemma SwappedProperties<T>(s: seq<T>, a: int, b: int)
    ensures |Swapped(s, a, b)| == |s|
    ensures InRange(s, a, b) ==>
      Swapped(s, a, b)[a] == s[b] && Swapped(s, a, b)[b] == s[a] &&
      forall k :: 0 <= k < |s| && k != a && k != b ==> Swapped(s, a, b)[k] == s[k]
    ensures !InRange(s, a, b) ==> Swapped(s, a, b) == s
    ensures multiset(Swapped(s, a, b)) == multiset(s)
  {
    if InRange(s, a, b) {
      SwapPermutes(s, a, b);
    }
  }

  lemma SwapPermutes<T>(s: seq<T>, a: int, b: int)
    requires InRange(s, a, b)
    ensures multiset(s[a := s[b]][b := s[a]]) == multiset(s)
  {
    if a != b {
      var t := s[a := s[b]];
      assert multiset(t) == multiset(s) - multiset{s[a]} + multiset{s[b]};
      assert t[b] == s[b];
      assert multiset(t[b := s[a]]) == multiset(t) - multiset{s[b]} + multiset{s[a]};
    } else {
      assert s[a := s[b]][b := s[a]] == s;
    }
  }

  /** Swapping the same two positions twice restores the sequence. */
  lemma SwappedTwice<T>(s: seq<T>, a: int, b: int)
    ensures Swapped(Swapped(s, a, b), a, b) == s
  {
    if InRange(s, a, b) {
      var t := Swapped(s, a, b);
      assert InRange(t, a, b);
      assert Swapped(t, a, b) == s;
    }
  }

  /** No element occurs twice. */
  predicate Distinct<T(==)>(s: seq<T>) {
    forall i, j :: 0 <= i < j < |s| ==> s[i] != s[j]
  }

  /** `t` is a rearrangement of `s`: same length, same characters counted
      with multiplicity. */
  predicate IsPermutationOf<T(==)>(t: seq<T>, s: seq<T>) {
    |t| == |s| && multiset(t) == multiset(s)
  }

  /** In a sequence without repeats every element occurs at most once. */
  lemma {:induction false} DistinctOccursOnce<T>(s: seq<T>, x: T)
    requires Distinct(s)
    ensures multiset(s)[x] <= 1
  {
    if s != [] {
      var tail := s[1..];
      assert s == [s[0]] + tail;
      assert Distinct(tail);
      DistinctOccursOnce(tail, x);
      if x == s[0] {
        assert x !in tail;
        assert multiset(tail)[x] == 0;
      }
    }
  }

  /** A rearrangement of a sequence without repeats has no repeats. */
  lemma PermutationOfDistinct<T>(t: seq<T>, s: seq<T>)
    requires Distinct(s) && IsPermutationOf(t, s)
    ensures Distinct(t)
  {
    forall i, j | 0 <= i < j < |t| ensures t[i] != t[j] {
      if t[i] == t[j] {
        var x := t[i];
        assert t == t[..j] + [t[j]] + t[j + 1..];
        assert x in t[..j];
        assert multiset(t)[x] == multiset(t[..j])[x] + 1 + multiset(t[j + 1..])[x];
        DistinctOccursOnce(s, x);
        assert false;
      }
    }
  }
}
