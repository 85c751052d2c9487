/**
 * Sequence facts the skill matcher relies on: the set of a list (Python's
 * `set(xs)`), lists without repeated elements, and subsequences.
 */
module Seqs {

  /** `set(s)`: the elements of `s`, with repetitions collapsed. */
  function Elems<T(!new)>(s: seq<T>): (r: set<T>)
    ensures forall x :: x in r <==> x in s
    ensures |r| <= |s|
  {
    if s == [] then {}
    else
      var init := s[..|s| - 1];
      assert s == init + [s[|s| - 1]];
      Elems(init) + {s[|s| - 1]}
  }

  /** No element occurs twice in `s`. */
  predicate NoDups<T(==)>(s: seq<T>) {
    forall i, j :: 0 <= i < j < |s| ==> s[i] != s[j]
  }

  /** A list without repetitions has as many distinct elements as entries. */
  lemma {:induction false} NoDupsElemsCard<T(!new)>(s: seq<T>)
    requires NoDups(s)
    ensures |Elems(s)| == |s|
  {
    if s != [] {
      var init := s[..|s| - 1];
      assert NoDups(init);
      NoDupsElemsCard(init);
      assert s[|s| - 1] !in init;
    }
  }

  /** Two lists without repetitions and with no element in common join into one. */
  lemma NoDupsConcat<T>(a: seq<T>, b: seq<T>)
    requires NoDups(a) && NoDups(b)
    requires forall i, j :: 0 <= i < |a| && 0 <= j < |b| ==> a[i] != b[j]
    ensures NoDups(a + b)
  {
    forall i, j | 0 <= i < j < |a + b| ensures (a + b)[i] != (a + b)[j] {
      if j < |a| {
        assert (a + b)[i] == a[i] && (a + b)[j] == a[j];
      } else if i < |a| {
        assert (a + b)[i] == a[i] && (a + b)[j] == b[j - |a|];
      } else {
        assert (a + b)[i] == b[i - |a|] && (a + b)[j] == b[j - |a|];
      }
    }
  }

  /** Every element of a list without repetitions occurs exactly once. */
  lemma {:induction false} NoDupsOccursOnce<T>(s: seq<T>, x: T)
    requires NoDups(s)
    requires x in s
    ensures multiset(s)[x] == 1
  {
    var init := s[..|s| - 1];
    assert s == init + [s[|s| - 1]];
    assert NoDups(init);
    if x == s[|s| - 1] {
      assert x !in init;
    } else {
      NoDupsOccursOnce(init, x);
    }
  }

  /**
   * `idx` lists, in strictly increasing order, the positions of `ys` at
   * which the entries of `xs` are found.
   */
  ghost predicate Embeds<T>(idx: seq<nat>, xs: seq<T>, ys: seq<T>) {
    && |idx| == |xs|
    && (forall k :: 0 <= k < |idx| ==> idx[k] < |ys| && xs[k] == ys[idx[k]])
    && (forall k, l :: 0 <= k < l < |idx| ==> idx[k] < idx[l])
  }

  /** `xs` is `ys` with some entries dropped and the rest kept in order. */
  ghost predicate IsSubsequence<T>(xs: seq<T>, ys: seq<T>) {
    exists idx :: Embeds(idx, xs, ys)
  }
}
