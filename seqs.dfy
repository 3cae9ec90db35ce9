/** Sequence operations behind the data pipeline of both chart scripts:
    `Array.prototype.filter`, the insertion-ordered `Array.from(new Set(xs))`,
    and what it means for one sequence to be an order-preserving part of another.
    Sequences are taken apart at their LAST element, the way the JavaScript
    code builds its arrays and sets (one `push`/`add` after another). */
module Seqs {

  /** `a` is obtained from `b` by deleting elements; the rest keep their order. */
  predicate IsSubsequence<T(==)>(a: seq<T>, b: seq<T>)
    decreases |b|
  {
    if a == [] then true
    else if b == [] then false
    else if a[|a| - 1] == b[|b| - 1] then IsSubsequence(a[..|a| - 1], b[..|b| - 1])
    else IsSubsequence(a, b[..|b| - 1])
  }

  /** No element occurs twice. */
  predicate NoDuplicates<T(==)>(s: seq<T>) {
    forall i, j :: 0 <= i < j < |s| ==> s[i] != s[j]
  }

  /** Position of the first occurrence of `x` in `s`. */
  function FirstIndex<T(==)>(s: seq<T>, x: T): (k: nat)
    requires x in s
    ensures k < |s| && s[k] == x
    ensures forall i :: 0 <= i < k ==> s[i] != x
  {
    if s[0] == x then 0 else 1 + FirstIndex(s[1..], x)
  }

  /** The elements of `r` that occur in `s` appear in `r` in the order of their first occurrence in `s`. */
  predicate InFirstSeenOrder<T(==)>(r: seq<T>, s: seq<T>) {
    forall i, j :: 0 <= i < j < |r| && r[i] in s && r[j] in s ==> FirstIndex(s, r[i]) < FirstIndex(s, r[j])
  }

  /** `s.filter(p)`. */
  function Filter<T>(s: seq<T>, p: T -> bool): seq<T>
    decreases |s|
  {
    if s == [] then []
    else Filter(s[..|s| - 1], p) + (if p(s[|s| - 1]) then [s[|s| - 1]] else [])
  }

  /** `Array.from(new Set(s))`: a JavaScript `Set` iterates in insertion order and ignores
      an element it already holds. */
  function Distinct<T(==)>(s: seq<T>): (r: seq<T>)
    ensures NoDuplicates(r)
    ensures forall i :: 0 <= i < |s| ==> s[i] in r
    ensures forall i :: 0 <= i < |r| ==> r[i] in s
    decreases |s|
  {
    if s == [] then []
    else
      var d := Distinct(s[..|s| - 1]);
      assert forall i :: 0 <= i < |s| - 1 ==> s[i] == s[..|s| - 1][i];
      if s[|s| - 1] in d then d else d + [s[|s| - 1]]
  }

  // ---------------------------------------------------------------------------
  // Subsequences

  lemma {:induction false} SubsequenceExtend<T>(a: seq<T>, b: seq<T>, x: T)
    requires IsSubsequence(a, b)
    ensures IsSubsequence(a, b + [x])
    decreases |b|, 1
  {
    var b' := b + [x];
    assert b'[..|b'| - 1] == b;
    if a != [] && a[|a| - 1] == x {
      SubsequenceDropLast(a, b);
    }
  }

  lemma {:induction false} SubsequenceDropLast<T>(a: seq<T>, b: seq<T>)
    requires a != [] && IsSubsequence(a, b)
    ensures IsSubsequence(a[..|a| - 1], b)
    decreases |b|, 0
  {
    var b' := b[..|b| - 1];
    assert b == b' + [b[|b| - 1]];
    if a[|a| - 1] == b[|b| - 1] {
      SubsequenceExtend(a[..|a| - 1], b', b[|b| - 1]);
    } else {
      SubsequenceDropLast(a, b');
      SubsequenceExtend(a[..|a| - 1], b', b[|b| - 1]);
    }
  }

  /** An order-preserving part of an order-preserving part of `c` is one of `c`. */
  lemma {:induction false} SubsequenceTransitive<T>(a: seq<T>, b: seq<T>, c: seq<T>)
    requires IsSubsequence(a, b) && IsSubsequence(b, c)
    ensures IsSubsequence(a, c)
    decreases |c|
  {
    if a == [] {
    } else if b[|b| - 1] == c[|c| - 1] {
      var b', c' := b[..|b| - 1], c[..|c| - 1];
      assert c == c' + [c[|c| - 1]];
      if a[|a| - 1] == b[|b| - 1] {
        SubsequenceTransitive(a[..|a| - 1], b', c');
      } else {
        SubsequenceTransitive(a, b', c');
        SubsequenceDropLast(a, c');
      }
    } else {
      var c' := c[..|c| - 1];
      assert c == c' + [c[|c| - 1]];
      SubsequenceTransitive(a, b, c');
      SubsequenceExtend(a, c', c[|c| - 1]);
    }
  }

  /** Every element of a subsequence is an element of the whole. */
  lemma {:induction false} SubsequenceMembers<T>(a: seq<T>, b: seq<T>)
    requires IsSubsequence(a, b)
    ensures forall x :: x in a ==> x in b
    decreases |b|
  {
    if a != [] {
      var b' := b[..|b| - 1];
      assert b == b' + [b[|b| - 1]];
      if a[|a| - 1] == b[|b| - 1] {
        SubsequenceMembers(a[..|a| - 1], b');
        assert a == a[..|a| - 1] + [a[|a| - 1]];
      } else {
        SubsequenceMembers(a, b');
      }
    }
  }

  // ---------------------------------------------------------------------------
  // Filter

  /** `s.filter(p)` keeps, in their order, exactly the elements satisfying `p`, each as often as in `s`. */
  lemma {:induction false} FilterSpec<T>(s: seq<T>, p: T -> bool)
    ensures IsSubsequence(Filter(s, p), s)
    ensures forall x :: multiset(Filter(s, p))[x] == if p(x) then multiset(s)[x] else 0
    ensures forall x :: x in Filter(s, p) <==> x in s && p(x)
    decreases |s|
  {
    if s != [] {
      var s', x := s[..|s| - 1], s[|s| - 1];
      assert s == s' + [x];
      FilterSpec(s', p);
      if p(x) {
        assert Filter(s, p) == Filter(s', p) + [x];
        assert Filter(s, p)[..|Filter(s, p)| - 1] == Filter(s', p);
      } else {
        assert Filter(s, p) == Filter(s', p);
        SubsequenceExtend(Filter(s', p), s', x);
      }
      assert forall y :: y in Filter(s, p) <==> multiset(Filter(s, p))[y] > 0;
      assert forall y :: y in s <==> multiset(s)[y] > 0;
    }
  }

  // ---------------------------------------------------------------------------
  // Distinct

  lemma {:induction false} FirstIndexInPrefix<T>(s: seq<T>, t: seq<T>, x: T)
    requires x in s
    ensures x in s + t && FirstIndex(s + t, x) == FirstIndex(s, x)
  {
    var k, k' := FirstIndex(s, x), FirstIndex(s + t, x);
    assert (s + t)[k] == x;
  }

  lemma {:induction false} FirstIndexOfNewcomer<T>(s: seq<T>, x: T)
    requires x !in s
    ensures x in s + [x] && FirstIndex(s + [x], x) == |s|
  {
    assert (s + [x])[|s|] == x;
  }

  /** `Array.from(new Set(s))` lists the distinct elements of `s` in the order in which they are first met. */
  lemma {:induction false} DistinctInFirstSeenOrder<T>(s: seq<T>)
    ensures InFirstSeenOrder(Distinct(s), s)
    decreases |s|
  {
    if s != [] {
      var s', x := s[..|s| - 1], s[|s| - 1];
      assert s == s' + [x];
      var d, d' := Distinct(s), Distinct(s');
      DistinctInFirstSeenOrder(s');
      forall y | y in d'
        ensures y in s && FirstIndex(s, y) == FirstIndex(s', y)
      {
        FirstIndexInPrefix(s', [x], y);
      }
      if x !in d' {
        assert d == d' + [x];
        FirstIndexOfNewcomer(s', x);
        forall i, j | 0 <= i < j < |d| && d[i] in s && d[j] in s
          ensures FirstIndex(s, d[i]) < FirstIndex(s, d[j])
        {
          assert d[i] == d'[i];
          if j < |d'| {
            assert d[j] == d'[j];
          } else {
            assert d[j] == x;
          }
        }
      }
    }
  }

  /** `Array.from(new Set(s))` holds exactly the elements of `s`. */
  lemma DistinctMembers<T>(s: seq<T>)
    ensures forall x :: x in Distinct(s) <==> x in s
  {
    forall x | x in Distinct(s)
      ensures x in s
    {
      var k :| 0 <= k < |Distinct(s)| && Distinct(s)[k] == x;
    }
  }

  /** What `Array.from(new Set(...))` does with one more element. */
  lemma {:induction false} DistinctSnoc<T>(s: seq<T>, x: T)
    ensures Distinct(s + [x]) == if x in s then Distinct(s) else Distinct(s) + [x]
  {
    assert (s + [x])[..|s|] == s;
  }

  /** The distinct list keeps the original order: it is a subsequence of `s`. */
  lemma {:induction false} DistinctIsSubsequence<T>(s: seq<T>)
    ensures IsSubsequence(Distinct(s), s)
    decreases |s|
  {
    if s != [] {
      var s', x := s[..|s| - 1], s[|s| - 1];
      assert s == s' + [x];
      DistinctIsSubsequence(s');
      var d := Distinct(s');
      if x in d {
        SubsequenceExtend(d, s', x);
      } else {
        assert (d + [x])[..|d|] == d;
      }
    }
  }
}
