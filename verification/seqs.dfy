/** Order-preserving selection over sequences. The FASTQ entry selection and
    the JSON report selection are both Python list comprehensions with an
    `if` filter; this module states once what such a comprehension keeps. */
module Seqs {
  import Results

  /** `s` ends with `suffix` (Python's `str.endswith`). */
  predicate EndsWith<T(==)>(s: seq<T>, suffix: seq<T>)
  {
    |suffix| <= |s| && s[|s| - |suffix|..] == suffix
  }

  /** The elements of `s` that satisfy `p`, in their original order:
      `[x for x in s if p(x)]`. */
  function Filter<T>(p: T -> bool, s: seq<T>): (r: seq<T>)
    ensures |r| <= |s|
    decreases |s|
  {
    if |s| == 0 then []
    else Filter(p, s[..|s| - 1]) + (if p(s[|s| - 1]) then [s[|s| - 1]] else [])
  }

  /** An element is selected exactly when it occurs in `s` and satisfies
      `p`. */
  lemma {:induction false} FilterMembership<T(!new)>(p: T -> bool, s: seq<T>)
    ensures forall x :: x in Filter(p, s) <==> x in s && p(x)
    decreases |s|
  {
    if |s| > 0 {
      var init := s[..|s| - 1];
      FilterMembership(p, init);
      assert s == init + [s[|s| - 1]];
    }
  }

  /** The positions of `s` whose element satisfies `p`, ascending: an
      independent description of what `Filter` keeps. */
  function MatchingIndices<T>(p: T -> bool, s: seq<T>): (idx: seq<nat>)
    ensures forall k :: 0 <= k < |idx| ==> idx[k] < |s| && p(s[idx[k]])
    ensures forall i :: 0 <= i < |s| && p(s[i]) ==> i in idx
    ensures forall k, l :: 0 <= k < l < |idx| ==> idx[k] < idx[l]
    decreases |s|
  {
    if |s| == 0 then []
    else
      var rest := MatchingIndices(p, s[..|s| - 1]);
      if p(s[|s| - 1]) then rest + [|s| - 1] else rest
  }

  /** `Filter` keeps exactly the satisfying elements, as a subsequence in
      their original order: its k-th element is the element at the k-th
      satisfying position. */
  lemma {:induction false} FilterIsOrderedSelection<T(!new)>(p: T -> bool, s: seq<T>)
    ensures |Filter(p, s)| == |MatchingIndices(p, s)|
    ensures forall k :: 0 <= k < |Filter(p, s)| ==>
              Filter(p, s)[k] == s[MatchingIndices(p, s)[k]]
    decreases |s|
  {
    if |s| > 0 {
      var init := s[..|s| - 1];
      FilterIsOrderedSelection(p, init);
      forall k | 0 <= k < |Filter(p, s)|
        ensures Filter(p, s)[k] == s[MatchingIndices(p, s)[k]]
      {
        if k < |Filter(p, init)| {
          assert Filter(p, s)[k] == Filter(p, init)[k];
          assert MatchingIndices(p, s)[k] == MatchingIndices(p, init)[k];
          assert init[MatchingIndices(p, init)[k]] == s[MatchingIndices(p, init)[k]];
        }
      }
    }
  }

  /** Every satisfying position before the k-th satisfying position is one
      of the first k satisfying positions. */
  lemma EarlierMatchIsEarlierIndex<T>(p: T -> bool, s: seq<T>, k: nat, j: nat)
    requires k < |MatchingIndices(p, s)|
    requires j < MatchingIndices(p, s)[k] && p(s[j])
    ensures exists l :: 0 <= l < k && MatchingIndices(p, s)[l] == j
  {
    var idx := MatchingIndices(p, s);
    var l :| 0 <= l < |idx| && idx[l] == j;
    if l >= k {
      assert false;
    }
  }

  /** When the first k selected elements all satisfy `q`, so does every
      satisfying element before the k-th selected one in `s`. */
  lemma SelectedPrefixLifts<T(!new)>(p: T -> bool, q: T -> bool, s: seq<T>, k: nat)
    requires k < |Filter(p, s)|
    requires forall l :: 0 <= l < k ==> q(Filter(p, s)[l])
    ensures k < |MatchingIndices(p, s)|
    ensures s[MatchingIndices(p, s)[k]] == Filter(p, s)[k]
    ensures forall j :: 0 <= j < MatchingIndices(p, s)[k] && p(s[j]) ==> q(s[j])
  {
    FilterIsOrderedSelection(p, s);
    var idx := MatchingIndices(p, s);
    var files := Filter(p, s);
    forall j | 0 <= j < idx[k] && p(s[j])
      ensures q(s[j])
    {
      EarlierMatchIsEarlierIndex(p, s, k, j);
      var l :| 0 <= l < k && idx[l] == j;
      assert files[l] == s[j];
    }
  }

  /** Filtering distributes over concatenation. */
  lemma {:induction false} FilterAppend<T(!new)>(p: T -> bool, a: seq<T>, b: seq<T>)
    ensures Filter(p, a + b) == Filter(p, a) + Filter(p, b)
    decreases |b|
  {
    if |b| == 0 {
      assert a + b == a;
    } else {
      var b' := b[..|b| - 1];
      assert (a + b)[..|a + b| - 1] == a + b';
      FilterAppend(p, a, b');
    }
  }

  /** Filtering keeps every occurrence of a satisfying element and none of
      the others. */
  lemma {:induction false} FilterCounts<T(!new)>(p: T -> bool, s: seq<T>, x: T)
    ensures multiset(Filter(p, s))[x] == if p(x) then multiset(s)[x] else 0
    decreases |s|
  {
    if |s| > 0 {
      var init := s[..|s| - 1];
      FilterCounts(p, init, x);
      assert s == init + [s[|s| - 1]];
    }
  }

  /** The elements of `s` are pairwise distinct. */
  predicate Distinct<T(==)>(s: seq<T>)
  {
    forall i, j :: 0 <= i < j < |s| ==> s[i] != s[j]
  }

  /** Selecting from a list without repetitions yields a list without
      repetitions. */
  lemma FilterKeepsDistinct<T(!new)>(p: T -> bool, s: seq<T>)
    requires Distinct(s)
    ensures Distinct(Filter(p, s))
  {
    FilterIsOrderedSelection(p, s);
  }

  /** Position of the first element of `s` satisfying `p`, if any. */
  function FirstIndex<T>(p: T -> bool, s: seq<T>): (r: Results.Option<nat>)
    ensures r.Some? ==> r.value < |s| && p(s[r.value])
    ensures r.Some? ==> forall j :: 0 <= j < r.value ==> !p(s[j])
    ensures r.None? ==> forall j :: 0 <= j < |s| ==> !p(s[j])
    decreases |s|
  {
    if |s| == 0 then Results.None
    else if p(s[0]) then Results.Some(0)
    else match FirstIndex(p, s[1..])
      case None => Results.None
      case Some(i) => Results.Some(i + 1)
  }

  /** When every element satisfies `p`, nothing is dropped. */
  lemma {:induction false} FilterKeepsAll<T>(p: T -> bool, s: seq<T>)
    requires forall i :: 0 <= i < |s| ==> p(s[i])
    ensures Filter(p, s) == s
    decreases |s|
  {
    if |s| > 0 {
      FilterKeepsAll(p, s[..|s| - 1]);
    }
  }

  /** A single element is kept exactly when it satisfies `p`. */
  lemma FilterSingleton<T>(p: T -> bool, x: T)
    ensures Filter(p, [x]) == if p(x) then [x] else []
  {
    assert [x][..0] == [];
  }

  /** When no element satisfies `p`, nothing is kept. */
  lemma {:induction false} FilterKeepsNone<T>(p: T -> bool, s: seq<T>)
    requires forall i :: 0 <= i < |s| ==> !p(s[i])
    ensures Filter(p, s) == []
    decreases |s|
  {
    if |s| > 0 {
      FilterKeepsNone(p, s[..|s| - 1]);
    }
  }
}
