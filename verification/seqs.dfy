/** Facts about sequences used by the order model: distinctness, element sets,
    and sums of a measure over a sequence. */
module Seqs {

  /** No element occurs twice. */
  predicate Distinct<T(==)>(s: seq<T>) {
    forall i, j :: 0 <= i < j < |s| ==> s[i] != s[j]
  }

  /** The set of elements of a sequence. */
  function Elems<T>(s: seq<T>): set<T> {
    set x | x in s
  }

  /** Sum of `f` over the elements of `s`, front to back. */
  function Sum<T>(s: seq<T>, f: T -> int): int {
    if |s| == 0 then 0 else f(s[0]) + Sum(s[1..], f)
  }

  /** A subset with as many elements as its superset is the superset. */
  lemma SubsetCardinality<T>(a: set<T>, b: set<T>)
    requires a <= b
    ensures |a| <= |b|
    ensures |a| == |b| ==> a == b
  {
    assert b == a + (b - a);
    assert a * (b - a) == {};
    if |a| == |b| {
      assert |b - a| == 0;
    }
  }

  /** A sequence has at most as many distinct elements as positions, and exactly
      as many when no element repeats. */
  lemma {:induction false} DistinctCardinality<T>(s: seq<T>)
    ensures |Elems(s)| <= |s|
    ensures |Elems(s)| == |s| <==> Distinct(s)
  {
    if |s| == 0 {
      assert Elems(s) == {};
    } else {
      var t := s[1..];
      DistinctCardinality(t);
      assert Elems(s) == {s[0]} + Elems(t);
      if s[0] in Elems(t) {
        var j :| 0 <= j < |t| && t[j] == s[0];
        assert s[0] == s[j + 1];
        assert !Distinct(s);
      } else {
        assert |Elems(s)| == 1 + |Elems(t)|;
        if Distinct(t) {
          forall i, j | 0 <= i < j < |s|
            ensures s[i] != s[j]
          {
            if i == 0 {
              assert s[j] == t[j - 1];
            } else {
              assert s[i] == t[i - 1] && s[j] == t[j - 1];
            }
          }
        } else {
          var i, j :| 0 <= i < j < |t| && t[i] == t[j];
          assert s[i + 1] == s[j + 1];
        }
      }
    }
  }

  /** In a sequence without repetitions every member occurs exactly once. */
  lemma {:induction false} DistinctMultiplicity<T>(s: seq<T>, x: T)
    requires Distinct(s)
    ensures multiset(s)[x] == if x in s then 1 else 0
  {
    if |s| > 0 {
      var t := s[1..];
      assert s == [s[0]] + t;
      assert Distinct(t) by {
        forall i, j | 0 <= i < j < |t| ensures t[i] != t[j] {
          assert t[i] == s[i + 1] && t[j] == s[j + 1];
        }
      }
      DistinctMultiplicity(t, x);
      assert multiset(s) == multiset{s[0]} + multiset(t);
      if x == s[0] {
        forall j | 0 <= j < |t|
          ensures t[j] != x
        {
          assert t[j] == s[j + 1];
        }
      }
    }
  }

  /** Two repetition-free sequences with the same elements are permutations of
      each other. */
  lemma SameElemsPermutation<T>(a: seq<T>, b: seq<T>)
    requires Distinct(a) && Distinct(b)
    requires Elems(a) == Elems(b)
    ensures multiset(a) == multiset(b)
  {
    forall x
      ensures multiset(a)[x] == multiset(b)[x]
    {
      DistinctMultiplicity(a, x);
      DistinctMultiplicity(b, x);
      assert x in a <==> x in Elems(a);
      assert x in b <==> x in Elems(b);
    }
  }

  lemma {:induction false} SumAppend<T>(a: seq<T>, b: seq<T>, f: T -> int)
    ensures Sum(a + b, f) == Sum(a, f) + Sum(b, f)
  {
    if |a| > 0 {
      assert (a + b)[1..] == a[1..] + b;
      SumAppend(a[1..], b, f);
    } else {
      assert a + b == b;
    }
  }

  /** Removing one position takes exactly that position's measure off the sum. */
  lemma SumRemove<T>(s: seq<T>, k: nat, f: T -> int)
    requires k < |s|
    ensures Sum(s, f) == f(s[k]) + Sum(s[..k] + s[k + 1..], f)
  {
    assert s == s[..k] + ([s[k]] + s[k + 1..]);
    SumAppend(s[..k], [s[k]] + s[k + 1..], f);
    SumAppend(s[..k], s[k + 1..], f);
    assert ([s[k]] + s[k + 1..])[1..] == s[k + 1..];
  }

  /** Reordering a sequence does not change the sum of a measure over it. */
  lemma {:induction false} SumPermutation<T>(a: seq<T>, b: seq<T>, f: T -> int)
    requires multiset(a) == multiset(b)
    ensures Sum(a, f) == Sum(b, f)
    decreases |a|
  {
    if |a| == 0 {
      assert |b| == |multiset(b)| == 0;
    } else {
      var x := a[0];
      assert x in multiset(b) by {
        assert x in multiset(a);
      }
      var k :| 0 <= k < |b| && b[k] == x;
      var rest := b[..k] + b[k + 1..];
      assert b == b[..k] + [x] + b[k + 1..];
      assert multiset(rest) == multiset(b) - multiset{x};
      assert a == [x] + a[1..];
      assert multiset(a[1..]) == multiset(a) - multiset{x};
      SumPermutation(a[1..], rest, f);
      SumRemove(b, k, f);
    }
  }

  /** Sums of two equally long sequences agree when their measures agree
      position by position. */
  lemma {:induction false} SumPointwise<A, B>(a: seq<A>, f: A -> int, b: seq<B>, g: B -> int)
    requires |a| == |b|
    requires forall i :: 0 <= i < |a| ==> f(a[i]) == g(b[i])
    ensures Sum(a, f) == Sum(b, g)
  {
    if |a| > 0 {
      SumPointwise(a[1..], f, b[1..], g);
    }
  }

  /** When each position of `c` measures the drop from `a` to `b`, the total of
      `c` is the total drop. */
  lemma {:induction false} SumPointwiseDifference<A, B, C>(
    a: seq<A>, f: A -> int, b: seq<B>, g: B -> int, c: seq<C>, h: C -> int)
    requires |a| == |b| == |c|
    requires forall i :: 0 <= i < |a| ==> f(a[i]) - g(b[i]) == h(c[i])
    ensures Sum(a, f) - Sum(b, g) == Sum(c, h)
  {
    if |a| > 0 {
      SumPointwiseDifference(a[1..], f, b[1..], g, c[1..], h);
    }
  }
}
