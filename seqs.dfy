/** Sequence helpers shared by the pipeline: numpy's boolean-mask selection
    (Filter), element-wise mapping, subsequences, and np.unique's sort-and-dedupe. */
module Seqs {

  /** Boolean-mask row selection `a[mask]`: keeps the rows satisfying `p`, in order. */
  function Filter<T(!new)>(s: seq<T>, p: T -> bool): (r: seq<T>)
    ensures |r| <= |s|
    ensures forall x :: x in r <==> x in s && p(x)
  {
    if s == [] then [] else (if p(s[0]) then [s[0]] else []) + Filter(s[1..], p)
  }

  /** Element-wise application of `f`. */
  function MapSeq<A, B>(s: seq<A>, f: A -> B): (r: seq<B>)
    ensures |r| == |s|
    ensures forall i :: 0 <= i < |s| ==> r[i] == f(s[i])
  {
    seq(|s|, i requires 0 <= i < |s| => f(s[i]))
  }

  /** `r` can be obtained from `s` by deleting elements. */
  predicate IsSubseq<T(==)>(r: seq<T>, s: seq<T>)
  {
    if r == [] then true
    else if s == [] then false
    else if r[0] == s[0] then IsSubseq(r[1..], s[1..])
    else IsSubseq(r, s[1..])
  }

  lemma {:induction false} FilterIsSubseq<T(!new)>(s: seq<T>, p: T -> bool)
    ensures IsSubseq(Filter(s, p), s)
  {
    if s != [] {
      FilterIsSubseq(s[1..], p);
      var r := Filter(s, p);
      if p(s[0]) {
        assert r[0] == s[0] && r[1..] == Filter(s[1..], p);
      } else {
        assert r == Filter(s[1..], p);
        if r != [] {
          assert r[0] in r;
        }
      }
    }
  }

  lemma {:induction false} FilterAppend<T(!new)>(a: seq<T>, b: seq<T>, p: T -> bool)
    ensures Filter(a + b, p) == Filter(a, p) + Filter(b, p)
  {
    if a != [] {
      var head := if p(a[0]) then [a[0]] else [];
      assert (a + b)[0] == a[0] && (a + b)[1..] == a[1..] + b;
      assert Filter(a + b, p) == head + Filter(a[1..] + b, p);
      assert Filter(a, p) == head + Filter(a[1..], p);
      FilterAppend(a[1..], b, p);
      assert head + (Filter(a[1..], p) + Filter(b, p)) == (head + Filter(a[1..], p)) + Filter(b, p);
    } else {
      assert a + b == b;
    }
  }

  /** Extending the scanned prefix by one element extends the selection by at most that element. */
  lemma FilterStep<T(!new)>(s: seq<T>, i: int, p: T -> bool)
    requires 0 <= i < |s|
    ensures Filter(s[..i + 1], p) == Filter(s[..i], p) + (if p(s[i]) then [s[i]] else [])
  {
    assert s[..i + 1] == s[..i] + [s[i]];
    FilterAppend(s[..i], [s[i]], p);
    assert Filter([s[i]], p) == (if p(s[i]) then [s[i]] else []) + Filter([], p);
  }

  lemma MapSeqAppend<A, B>(a: seq<A>, b: seq<A>, f: A -> B)
    ensures MapSeq(a + b, f) == MapSeq(a, f) + MapSeq(b, f)
  {
  }

  /** Selecting with a mask that is true everywhere changes nothing. */
  lemma {:induction false} FilterAll<T(!new)>(s: seq<T>, p: T -> bool)
    requires forall x :: x in s ==> p(x)
    ensures Filter(s, p) == s
  {
    if s != [] {
      assert s[0] in s;
      assert forall x :: x in s[1..] ==> x in s;
      FilterAll(s[1..], p);
    }
  }

  /** Two masks that agree on every element select the same rows. */
  lemma {:induction false} FilterCongruent<T(!new)>(s: seq<T>, p: T -> bool, q: T -> bool)
    requires forall x :: x in s ==> p(x) == q(x)
    ensures Filter(s, p) == Filter(s, q)
  {
    if s != [] {
      assert s[0] in s;
      assert forall x :: x in s[1..] ==> x in s;
      FilterCongruent(s[1..], p, q);
    }
  }

  /** Selecting twice is selecting once with the conjunction `pq`. */
  lemma {:induction false} FilterFuse<T(!new)>(s: seq<T>, p: T -> bool, q: T -> bool, pq: T -> bool)
    requires forall x :: x in s ==> pq(x) == (p(x) && q(x))
    ensures Filter(Filter(s, p), q) == Filter(s, pq)
  {
    if s != [] {
      assert s[0] in s;
      assert forall x :: x in s[1..] ==> x in s;
      FilterFuse(s[1..], p, q, pq);
      var head := if p(s[0]) then [s[0]] else [];
      FilterAppend(head, Filter(s[1..], p), q);
      if p(s[0]) {
        assert Filter(head, q) == (if q(s[0]) then [s[0]] else []) + Filter([], q);
      }
    }
  }

  /** Selecting after mapping is mapping after selecting with the composed mask `q`. */
  lemma {:induction false} FilterMapSeq<A(!new), B(!new)>(s: seq<A>, f: A -> B, p: B -> bool, q: A -> bool)
    requires forall x :: x in s ==> q(x) == p(f(x))
    ensures Filter(MapSeq(s, f), p) == MapSeq(Filter(s, q), f)
  {
    if s != [] {
      var h, t := [s[0]], s[1..];
      assert s == h + t;
      assert q(s[0]) == p(f(s[0])) by { assert s[0] in s; }
      assert forall x :: x in t ==> x in s;
      FilterMapSeq(t, f, p, q);
      MapSeqAppend(h, t, f);
      FilterAppend(MapSeq(h, f), MapSeq(t, f), p);
      FilterAppend(h, t, q);
      MapSeqAppend(Filter(h, q), Filter(t, q), f);
      FilterMapSeqOne(s[0], f, p, q);
    }
  }

  lemma FilterMapSeqOne<A(!new), B(!new)>(x: A, f: A -> B, p: B -> bool, q: A -> bool)
    requires q(x) == p(f(x))
    ensures Filter(MapSeq([x], f), p) == MapSeq(Filter([x], q), f)
  {
    assert MapSeq([x], f) == [f(x)];
    assert Filter([f(x)], p) == (if p(f(x)) then [f(x)] else []) + Filter([], p);
    assert Filter([x], q) == (if q(x) then [x] else []) + Filter([], q);
  }

  // ---------------------------------------------------------------------
  // np.unique(..., axis=0): rows sorted under a strict total order, duplicates removed.

  ghost predicate StrictOrder<T(!new)>(lt: (T, T) -> bool)
  {
    && (forall a :: !lt(a, a))
    && (forall a, b, c :: lt(a, b) && lt(b, c) ==> lt(a, c))
    && (forall a, b :: a != b ==> lt(a, b) || lt(b, a))
  }

  predicate StrictlySorted<T>(lt: (T, T) -> bool, s: seq<T>)
  {
    forall i, j :: 0 <= i < j < |s| ==> lt(s[i], s[j])
  }

  /** Inserts `x` into a strictly sorted sequence unless it is already present. */
  function InsertUnique<T(==,!new)>(lt: (T, T) -> bool, x: T, s: seq<T>): (r: seq<T>)
    requires StrictOrder(lt) && StrictlySorted(lt, s)
    ensures StrictlySorted(lt, r)
    ensures forall y :: y in r <==> y == x || y in s
  {
    if s == [] then [x]
    else if x == s[0] then s
    else if lt(x, s[0]) then
      assert forall j :: 0 < j < |s| ==> lt(s[0], s[j]);
      [x] + s
    else
      var t := InsertUnique(lt, x, s[1..]);
      assert forall y :: y in t ==> lt(s[0], y) by {
        forall y | y in t ensures lt(s[0], y) {
          if y != x {
            var j :| 0 <= j < |s[1..]| && s[1..][j] == y;
            assert s[j + 1] == y;
          }
        }
      }
      assert forall j :: 0 <= j < |t| ==> t[j] in t;
      [s[0]] + t
  }

  /** The rows of `s` without repetition, in increasing order. */
  function SortUnique<T(==,!new)>(lt: (T, T) -> bool, s: seq<T>): (r: seq<T>)
    requires StrictOrder(lt)
    ensures StrictlySorted(lt, r)
    ensures forall y :: y in r <==> y in s
  {
    if s == [] then [] else InsertUnique(lt, s[0], SortUnique(lt, s[1..]))
  }

  /** A strictly sorted sequence is determined by its elements. */
  lemma {:induction false} StrictlySortedUnique<T(!new)>(lt: (T, T) -> bool, a: seq<T>, b: seq<T>)
    requires StrictOrder(lt) && StrictlySorted(lt, a) && StrictlySorted(lt, b)
    requires forall y :: y in a <==> y in b
    ensures a == b
  {
    assert a != [] ==> a[0] in b;
    assert b != [] ==> b[0] in a;
    if a != [] && b != [] {
      assert a[0] == b[0];
      forall y ensures y in a[1..] <==> y in b[1..] {
        if y in a[1..] {
          var i :| 0 < i < |a| && a[i] == y;
          assert lt(a[0], y);
          assert y in b;
        }
        if y in b[1..] {
          var i :| 0 < i < |b| && b[i] == y;
          assert lt(b[0], y);
          assert y in a;
        }
      }
      StrictlySortedUnique(lt, a[1..], b[1..]);
      assert a == [a[0]] + a[1..];
      assert b == [b[0]] + b[1..];
    }
  }

  /** np.unique leaves an already sorted, duplicate-free sequence as it is. */
  lemma SortUniqueOfSorted<T(!new)>(lt: (T, T) -> bool, s: seq<T>)
    requires StrictOrder(lt) && StrictlySorted(lt, s)
    ensures SortUnique(lt, s) == s
  {
    StrictlySortedUnique(lt, SortUnique(lt, s), s);
  }
}
