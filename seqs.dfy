/** Sequence helpers shared by the tree model and the reconciliation specification. */
module Seqs {

  /** No element occurs twice. */
  predicate Distinct<T(==)>(s: seq<T>) {
    forall i, j | 0 <= i < j < |s| :: s[i] != s[j]
  }

  /** Two duplicate-free sequences with no element in common concatenate to a duplicate-free one. */
  lemma DistinctConcat<T>(a: seq<T>, b: seq<T>)
    requires Distinct(a) && Distinct(b)
    requires forall i, j | 0 <= i < |a| && 0 <= j < |b| :: a[i] != b[j]
    ensures Distinct(a + b)
  {
  }

  /** The elements of a sequence, as a set. */
  function Elems<T>(s: seq<T>): set<T> {
    set x | x in s
  }

  /** The sequence with every occurrence of the elements of `gone` taken out, order kept. */
  function Without<T(==)>(s: seq<T>, gone: set<T>): seq<T> {
    if s == [] then []
    else
      var front, last := s[..|s| - 1], s[|s| - 1];
      if last in gone then Without(front, gone) else Without(front, gone) + [last]
  }

  /** What filtering keeps: exactly the elements not taken out, and no more of them. */
  lemma {:induction false} WithoutMembers<T>(s: seq<T>, gone: set<T>)
    ensures forall x | x in Without(s, gone) :: x in s && x !in gone
    ensures forall x | x in s && x !in gone :: x in Without(s, gone)
    ensures |Without(s, gone)| <= |s|
  {
    if s != [] {
      var front, last := s[..|s| - 1], s[|s| - 1];
      WithoutMembers(front, gone);
      assert s == front + [last];
    }
  }

  /** Filtering keeps distinctness. */
  lemma {:induction false} WithoutDistinct<T>(s: seq<T>, gone: set<T>)
    requires Distinct(s)
    ensures Distinct(Without(s, gone))
  {
    if s != [] {
      var front, last := s[..|s| - 1], s[|s| - 1];
      WithoutDistinct(front, gone);
      WithoutMembers(front, gone);
      assert last !in front by {
        forall i | 0 <= i < |front| ensures front[i] != last {
          assert s[i] != s[|s| - 1];
        }
      }
    }
  }

  /** Nothing to take out: the sequence is returned unchanged. */
  lemma {:induction false} WithoutNothing<T>(s: seq<T>, gone: set<T>)
    requires forall x | x in s :: x !in gone
    ensures Without(s, gone) == s
  {
    if s != [] {
      var front := s[..|s| - 1];
      WithoutNothing(front, gone);
      assert s == front + [s[|s| - 1]];
    }
  }

  /** Taking out every element leaves nothing. */
  lemma {:induction false} WithoutEverything<T>(s: seq<T>, gone: set<T>)
    requires forall x | x in s :: x in gone
    ensures Without(s, gone) == []
  {
    if s != [] {
      WithoutEverything(s[..|s| - 1], gone);
    }
  }

  /** Removing in two rounds is removing the union once. */
  lemma {:induction false} WithoutTwice<T>(s: seq<T>, a: set<T>, b: set<T>)
    ensures Without(Without(s, a), b) == Without(s, a + b)
  {
    if s != [] {
      var front, last := s[..|s| - 1], s[|s| - 1];
      WithoutTwice(front, a, b);
      if last !in a {
        var w := Without(front, a);
        assert Without(s, a) == w + [last];
        assert (w + [last])[..|w + [last]| - 1] == w;
      }
    }
  }

  /** When exactly the elements from position n on are removed, the prefix remains. */
  lemma {:induction false} WithoutKeepsPrefix<T>(s: seq<T>, gone: set<T>, n: nat)
    requires n <= |s|
    requires forall i | 0 <= i < n :: s[i] !in gone
    requires forall i | n <= i < |s| :: s[i] in gone
    ensures Without(s, gone) == s[..n]
  {
    if n == |s| {
      WithoutNothing(s, gone);
    } else {
      var front := s[..|s| - 1];
      WithoutKeepsPrefix(front, gone, n);
      assert front[..n] == s[..n];
    }
  }

  /** Removing the nodes of a suffix of distinct nodes leaves the prefix. */
  lemma WithoutSuffix<T>(s: seq<T>, n: nat)
    requires Distinct(s) && n <= |s|
    ensures Without(s, Elems(s[n..])) == s[..n]
  {
    forall i | 0 <= i < n ensures s[i] !in Elems(s[n..]) {
      forall j | n <= j < |s| ensures s[i] != s[j] {
        assert s[i] != s[j];
      }
    }
    forall i | n <= i < |s| ensures s[i] in Elems(s[n..]) {
      assert s[n..][i - n] == s[i];
    }
    WithoutKeepsPrefix(s, Elems(s[n..]), n);
  }

  /** A distinct sequence has as many elements as its set. */
  lemma {:induction false} DistinctCard<T>(s: seq<T>)
    requires Distinct(s)
    ensures |Elems(s)| == |s|
  {
    if s != [] {
      var front, last := s[..|s| - 1], s[|s| - 1];
      DistinctCard(front);
      assert s == front + [last];
      assert Elems(s) == Elems(front) + {last};
      assert last !in Elems(front) by {
        forall i | 0 <= i < |front| ensures front[i] != last {
          assert s[i] != s[|s| - 1];
        }
      }
    }
  }

  /** Two distinct sequences over the same elements have the same length. */
  lemma SameElemsSameLength<T>(a: seq<T>, b: seq<T>)
    requires Distinct(a) && Distinct(b) && Elems(a) == Elems(b)
    ensures |a| == |b|
  {
    DistinctCard(a);
    DistinctCard(b);
  }
}
