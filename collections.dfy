// Order-preserving filtering, the shape shared by the server's queries
// (`find({parentId: ...})`) and the client's tree builder (`roots.push`,
// `children.push` in input order).

module Collections {

  /** The elements of `s` that satisfy `keep`, in their order in `s`. */
  function Filter<T(==, !new)>(s: seq<T>, keep: T -> bool): (r: seq<T>)
    ensures |r| <= |s|
    ensures forall x :: x in r ==> x in s && keep(x)
  {
    if s == [] then [] else (if keep(s[0]) then [s[0]] else []) + Filter(s[1..], keep)
  }

  /** Filtering keeps every kept element as often as it occurs, and drops the rest. */
  lemma {:induction false} FilterCount<T(!new)>(s: seq<T>, keep: T -> bool)
    ensures forall x :: multiset(Filter(s, keep))[x] == if keep(x) then multiset(s)[x] else 0
  {
    if s != [] {
      FilterCount(s[1..], keep);
      assert s == [s[0]] + s[1..];
    }
  }

  /** Filtering one more element at the end extends the result at the end. */
  lemma {:induction false} FilterSnoc<T(!new)>(s: seq<T>, x: T, keep: T -> bool)
    ensures Filter(s + [x], keep) == Filter(s, keep) + (if keep(x) then [x] else [])
  {
    if s == [] {
      assert [x][1..] == [];
    } else {
      assert (s + [x])[0] == s[0];
      assert (s + [x])[1..] == s[1..] + [x];
      FilterSnoc(s[1..], x, keep);
    }
  }

  /** `r` is obtained from `s` by deleting elements (greedy matching). */
  predicate IsSubsequence<T(==, !new)>(r: seq<T>, s: seq<T>)
    decreases |s|
  {
    if r == [] then true
    else if s == [] then false
    else if r[0] == s[0] then IsSubsequence(r[1..], s[1..])
    else IsSubsequence(r, s[1..])
  }

  /** Filtering keeps the relative order of the kept elements. */
  lemma {:induction false} FilterIsSubsequence<T(!new)>(s: seq<T>, keep: T -> bool)
    ensures IsSubsequence(Filter(s, keep), s)
  {
    if s != [] {
      FilterIsSubsequence(s[1..], keep);
      var r := Filter(s, keep);
      if keep(s[0]) {
        assert r[0] == s[0] && r[1..] == Filter(s[1..], keep);
      } else if r != [] {
        assert r == Filter(s[1..], keep);
        SubsequenceSkip(r, s);
      }
    }
  }

  /** A subsequence of the tail is a subsequence of the whole. */
  lemma {:induction false} SubsequenceSkip<T(!new)>(r: seq<T>, s: seq<T>)
    requires s != [] && IsSubsequence(r, s[1..])
    ensures IsSubsequence(r, s)
    decreases |s|, |r|
  {
    if r != [] && r[0] == s[0] {
      // Matching r[0] against s[0] leaves r[1..], which is a subsequence of
      // s[1..] because r is.
      SubsequenceTail(r, s[1..]);
    }
  }

  /** Dropping the first element of a subsequence keeps it a subsequence. */
  lemma {:induction false} SubsequenceTail<T(!new)>(r: seq<T>, s: seq<T>)
    requires r != [] && IsSubsequence(r, s)
    ensures IsSubsequence(r[1..], s)
    decreases |s|, |r|
  {
    if r[0] == s[0] {
      if r[1..] != [] {
        SubsequenceSkip(r[1..], s);
      }
    } else {
      SubsequenceTail(r, s[1..]);
      if r[1..] != [] {
        SubsequenceSkip(r[1..], s);
      }
    }
  }

  /** Two elements of a subsequence come from two positions of the sequence, in
      the same order. */
  lemma {:induction false} SubsequenceOrder<T(!new)>(r: seq<T>, s: seq<T>, i: nat, j: nat) returns (a: nat, b: nat)
    requires IsSubsequence(r, s) && i < j < |r|
    ensures a < b < |s| && s[a] == r[i] && s[b] == r[j]
    decreases |s|
  {
    if r[0] == s[0] {
      if i == 0 {
        b := SubsequenceAt(r[1..], s[1..], j - 1);
        a, b := 0, b + 1;
      } else {
        a, b := SubsequenceOrder(r[1..], s[1..], i - 1, j - 1);
        a, b := a + 1, b + 1;
      }
    } else {
      a, b := SubsequenceOrder(r, s[1..], i, j);
      a, b := a + 1, b + 1;
    }
  }

  /** Every element of a subsequence occurs in the sequence. */
  lemma {:induction false} SubsequenceAt<T(!new)>(r: seq<T>, s: seq<T>, i: nat) returns (b: nat)
    requires IsSubsequence(r, s) && i < |r|
    ensures b < |s| && s[b] == r[i]
    decreases |s|
  {
    if r[0] == s[0] {
      if i == 0 {
        b := 0;
      } else {
        b := SubsequenceAt(r[1..], s[1..], i - 1);
        b := b + 1;
      }
    } else {
      b := SubsequenceAt(r, s[1..], i);
      b := b + 1;
    }
  }
}
